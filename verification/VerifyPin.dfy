/** PIN verification of one request by any number of interleaved calls, next to
    every other service call, with a lock that may expire at any moment. */
module VerifyPin {
  import opened Wrappers
  import opened Collections
  import opened CollectionRuns

  type Caller = nat

  /** A verifyPin call: behind the lock; past the checks, with so many ways left to credit the household and the credit
      confirmed or not; thrown, with the lock still to be deleted; past the conditional update, which it won or not;
      or over. A call refused by the lock is over at once. */
  datatype Phase =
    | Locked
    | Checked(ways: nat, credited: bool)
    | Thrown
    | Updated(won: bool)
    | Done(won: bool)

  /** A call may transfer from the collector's wallet, and mint when that did not go through. */
  const WAYS_TO_CREDIT := 2

  /** `lock` records who set the Redis key, `usesRedis` whether there is a Redis service at all, and `credits` how many
      on-chain credits were made for the request. */
  datatype World = World(db: Db, usesRedis: bool, lock: Option<Caller>, callers: map<Caller, Phase>, credits: nat)

  /** Pieces of verifyPin between awaits, lock expiry, and any other service call. */
  datatype Step =
    | TakeLock(p: Caller)
    | TakeLockErrs(p: Caller, applied: bool)  // Redis errs and the call fails; the key may have been set
    | Check(p: Caller, collector: User, pinMatches: bool)  // the PIN's step and the others that only read
    | Credit(p: Caller, confirmed: bool)      // the chain made the credit; the answer may be an error all the same
    | NoCredit(p: Caller)                     // this way of crediting was skipped or failed without effect
    | Throw(p: Caller)                        // an await between the lock and the update rejects
    | Update(p: Caller, batch: Option<nat>)
    | Unlock(p: Caller, reached: bool)        // the finally block; the delete may be lost on the way
    | ExpireLock
    | Other(call: Call)

  function Start(usesRedis: bool): World { World(EMPTY_DB, usesRedis, None, map[], 0) }

  function InPhase(w: World, p: Caller, phase: Phase): World { w.(callers := w.callers[p := phase]) }

  predicate PastChecks(w: World, p: Caller) { p in w.callers && w.callers[p].Checked? }

  predicate MayCredit(w: World, p: Caller) { PastChecks(w, p) && !w.callers[p].credited && w.callers[p].ways > 0 }

  /** Steps on request `id`; a step that is not enabled changes nothing. The lock is deleted without asking whose
      it is. */
  ghost function Next(w: World, id: RequestId, s: Step): World {
    match s
    case TakeLock(p) =>
      if p in w.callers then w
      else if !w.usesRedis then InPhase(w, p, Locked)
      else if w.lock.Some? then InPhase(w, p, Done(false))
      else InPhase(w, p, Locked).(lock := Some(p))
    case TakeLockErrs(p, applied) =>
      if p in w.callers || !w.usesRedis then w
      else InPhase(w, p, Done(false)).(lock := if applied && w.lock.None? then Some(p) else w.lock)
    case Check(p, collector, pinMatches) =>
      if p in w.callers && w.callers[p].Locked? then
        if id in w.db.requests && w.db.requests[id].collector == Some(collector)
           && CanVerifyPin(w.db.requests[id].status) && pinMatches
        then InPhase(w, p, Checked(WAYS_TO_CREDIT, false)) else InPhase(w, p, Thrown)
      else w
    case Credit(p, confirmed) =>
      if MayCredit(w, p) then
        InPhase(w, p, if confirmed then Checked(0, true) else Checked(w.callers[p].ways - 1, false))
        .(credits := w.credits + 1)
      else w
    case NoCredit(p) => if MayCredit(w, p) then InPhase(w, p, Checked(w.callers[p].ways - 1, false)) else w
    case Throw(p) =>
      if p in w.callers && (w.callers[p].Locked? || w.callers[p].Checked?) then InPhase(w, p, Thrown) else w
    case Update(p, batch) =>
      if PastChecks(w, p) then
        var c := CompleteIfActive(id, batch);
        InPhase(w, p, Updated(Admits(w.db, c))).(db := Apply(w.db, c))
      else w
    case Unlock(p, reached) =>
      if p in w.callers && (w.callers[p].Updated? || w.callers[p].Thrown?)
      then InPhase(w, p, Done(w.callers[p].Updated? && w.callers[p].won))
           .(lock := if reached && w.usesRedis then None else w.lock)
      else w
    case ExpireLock => w.(lock := None)
    case Other(c) => if c.CompleteIfActive? && c.id == id then w else w.(db := Apply(w.db, c))
  }

  ghost function Exec(w: World, id: RequestId, steps: seq<Step>): World {
    if steps == [] then w else Next(Exec(w, id, steps[..|steps| - 1]), id, steps[|steps| - 1])
  }

  // ---------- At most one completion ----------

  predicate Won(w: World, p: Caller) {
    p in w.callers && ((w.callers[p].Updated? && w.callers[p].won) || (w.callers[p].Done? && w.callers[p].won))
  }

  /** At most one call has won, and a request that was won is over. */
  ghost predicate WonOnce(w: World, id: RequestId) {
    && RowsSound(w.db) && OneActivePerHousehold(w.db)
    && (forall p, q :: Won(w, p) && Won(w, q) ==> p == q)
    && (forall p :: Won(w, p) ==> id in w.db.requests && IsTerminal(w.db.requests[id].status))
  }

  /** Only a caller's own update can make it win, and nothing makes it lose. */
  lemma WonMoves(w: World, id: RequestId, s: Step, p: Caller)
    ensures Won(w, p) ==> Won(Next(w, id, s), p)
    ensures Won(Next(w, id, s), p) && !Won(w, p) ==>
      s.Update? && s.p == p && id in w.db.requests && CanVerifyPin(w.db.requests[id].status)
  {
  }

  /** The tables move by one service call or not at all. */
  lemma TablesMove(w: World, id: RequestId, s: Step)
    requires RowsSound(w.db) && OneActivePerHousehold(w.db)
    ensures var n := Next(w, id, s);
      && RowsSound(n.db) && OneActivePerHousehold(n.db)
      && (id in w.db.requests && IsTerminal(w.db.requests[id].status) ==>
            id in n.db.requests && IsTerminal(n.db.requests[id].status))
  {
    var n := Next(w, id, s);
    if n.db != w.db {
      var c := if s.Other? then s.call else CompleteIfActive(id, s.batch);
      assert n.db == Apply(w.db, c);
      ApplyKeepsLifecycle(w.db, c);
      if id in w.db.requests && IsTerminal(w.db.requests[id].status) {
        TerminalIsClosed(w.db, c, id);
      }
    }
  }

  lemma StepKeepsWonOnce(w: World, id: RequestId, s: Step)
    requires WonOnce(w, id)
    ensures WonOnce(Next(w, id, s), id)
  {
    var n := Next(w, id, s);
    TablesMove(w, id, s);
    forall p, q | Won(n, p) && Won(n, q) ensures p == q {
      WonMoves(w, id, s, p);
      WonMoves(w, id, s, q);
    }
    forall p | Won(n, p) ensures id in n.db.requests && IsTerminal(n.db.requests[id].status) {
      WonMoves(w, id, s, p);
    }
  }

  /** In every run, with the lock expiring at any point or absent, at most one verifyPin call on a request succeeds,
      and from then on the request stays terminal. */
  lemma {:induction false} AtMostOneCompletion(usesRedis: bool, id: RequestId, steps: seq<Step>)
    ensures WonOnce(Exec(Start(usesRedis), id, steps), id)
  {
    if steps != [] {
      AtMostOneCompletion(usesRedis, id, steps[..|steps| - 1]);
      StepKeepsWonOnce(Exec(Start(usesRedis), id, steps[..|steps| - 1]), id, steps[|steps| - 1]);
    }
  }

  /** A win is a completion: the request was active before the winning update and is COMPLETED after it. */
  lemma WinningCompletes(w: World, id: RequestId, p: Caller, batch: Option<nat>)
    requires !Won(w, p) && Won(Next(w, id, Update(p, batch)), p)
    ensures id in w.db.requests && CanVerifyPin(w.db.requests[id].status)
    ensures Next(w, id, Update(p, batch)).db.requests[id].status == COMPLETED
  {
  }

  // ---------- The checks ----------

  /** The check of call p by the right collector, with the right PIN, on a request being served. */
  predicate Passes(w: World, id: RequestId, s: Step, p: Caller) {
    && s.Check? && s.p == p && s.pinMatches
    && p in w.callers && w.callers[p] == Locked
    && id in w.db.requests && w.db.requests[id].collector == Some(s.collector)
    && w.db.requests[id].status in {ACCEPTED, EN_ROUTE, ARRIVED}
  }

  /** A call gets past the checks exactly by such a check of its own. */
  lemma GetsPastChecksIff(w: World, id: RequestId, s: Step, p: Caller)
    ensures !PastChecks(w, p) && PastChecks(Next(w, id, s), p) <==> Passes(w, id, s, p)
  {
  }

  /** Any other check by a call behind the lock is refused: the call throws, and tables, credits and lock stay. */
  lemma RefusedCheck(w: World, id: RequestId, s: Step)
    requires s.Check? && s.p in w.callers && w.callers[s.p] == Locked && !Passes(w, id, s, s.p)
    ensures Next(w, id, s) == w.(callers := w.callers[s.p := Thrown])
  {
  }

  /** A call gets behind the lock exactly as a new call that finds the key free, or no Redis at all. */
  lemma GetsBehindLockIff(w: World, id: RequestId, s: Step, p: Caller)
    ensures (p !in w.callers || w.callers[p] != Locked)
            && p in Next(w, id, s).callers && Next(w, id, s).callers[p] == Locked
       <==> s == TakeLock(p) && p !in w.callers && (w.usesRedis ==> w.lock == None)
  {
  }

  /** The key becomes a call's own exactly when it is free and a new call sets it, also by a SET that errs. */
  lemma KeyTakenIff(w: World, id: RequestId, s: Step, p: Caller)
    ensures w.lock != Some(p) && Next(w, id, s).lock == Some(p)
       <==> w.usesRedis && w.lock == None && p !in w.callers && s in {TakeLock(p), TakeLockErrs(p, true)}
  {
  }

  /** The key goes exactly when it expires or when the delete of a call that is leaving arrives, whosever it is. */
  lemma KeyFreedIff(w: World, id: RequestId, s: Step)
    ensures w.lock != None && Next(w, id, s).lock == None
       <==> w.lock != None && (s.ExpireLock? || (w.usesRedis && s.Unlock? && s.reached && Leaving(w, s.p)))
  {
  }

  /** The call wrote its update or threw, and has its finally block before it. */
  predicate Leaving(w: World, p: Caller) { p in w.callers && (w.callers[p].Updated? || w.callers[p].Thrown?) }

  /** A call throws exactly when an await rejects between lock and update, or its check is refused. */
  lemma ThrowsIff(w: World, id: RequestId, s: Step, p: Caller)
    ensures !Threw(w, p) && Threw(Next(w, id, s), p)
       <==> || (s == Throw(p) && p in w.callers && (w.callers[p] == Locked || PastChecks(w, p)))
            || (s.Check? && s.p == p && p in w.callers && w.callers[p] == Locked && !Passes(w, id, s, p))
  {
  }

  predicate Threw(w: World, p: Caller) { p in w.callers && w.callers[p].Thrown? }

  /** A call is over exactly when it found the key taken, its SET erred, or its finally block ran; a call that was
      turned away before the checks has not won. */
  lemma EndsIff(w: World, id: RequestId, s: Step, p: Caller)
    ensures Ended(Next(w, id, s), p) && !Ended(w, p)
       <==> || (p !in w.callers && w.usesRedis && s.TakeLock? && s.p == p && w.lock != None)
            || (p !in w.callers && w.usesRedis && s.TakeLockErrs? && s.p == p)
            || (s.Unlock? && s.p == p && Leaving(w, p))
    ensures Ended(Next(w, id, s), p) && !Ended(w, p) ==> (Won(Next(w, id, s), p) <==> Won(w, p))
  {
  }

  predicate Ended(w: World, p: Caller) { p in w.callers && w.callers[p].Done? }

  /** Each way of crediting is tried once: with a second way left a call may go on exactly when the first was not
      confirmed. The two ways of a call are its transfer and its mint. */
  lemma WayIsUsedUp(w: World, id: RequestId, s: Step, p: Caller)
    requires (s.Credit? || s.NoCredit?) && s.p == p && MayCredit(w, p)
    ensures PastChecks(Next(w, id, s), p)
    ensures MayCredit(Next(w, id, s), p) <==> w.callers[p].ways > 1 && s != Credit(p, true)
    ensures MayCredit(Next(w, id, s), p) ==> Next(w, id, s).callers[p].ways < w.callers[p].ways
  {
  }

  /** The call passed a check at some step of the run. */
  ghost predicate MadeCheck(usesRedis: bool, id: RequestId, steps: seq<Step>, p: Caller) {
    exists k :: 0 <= k < |steps| && Passes(Exec(Start(usesRedis), id, steps[..k]), id, steps[k], p)
  }

  lemma MadeCheckBefore(usesRedis: bool, id: RequestId, steps: seq<Step>, p: Caller)
    requires steps != []
    ensures MadeCheck(usesRedis, id, steps[..|steps| - 1], p) ==> MadeCheck(usesRedis, id, steps, p)
    ensures Passes(Exec(Start(usesRedis), id, steps[..|steps| - 1]), id, steps[|steps| - 1], p)
      ==> MadeCheck(usesRedis, id, steps, p)
  {
    var front := steps[..|steps| - 1];
    if MadeCheck(usesRedis, id, front, p) {
      var k :| 0 <= k < |front| && Passes(Exec(Start(usesRedis), id, front[..k]), id, front[k], p);
      assert steps[k] == front[k] && steps[..k] == front[..k];
    }
  }

  lemma OnlyByPassing(w: World, id: RequestId, s: Step, p: Caller)
    requires PastChecks(Next(w, id, s), p) || Won(Next(w, id, s), p)
    ensures PastChecks(w, p) || Won(w, p) || Passes(w, id, s, p)
  {
  }

  /** In every run, a call that is past the checks, or has completed the request, passed a check of its own, with the
      right PIN, for the collector serving the request at that moment. */
  lemma {:induction false} NobodySkipsTheChecks(usesRedis: bool, id: RequestId, steps: seq<Step>, p: Caller)
    requires var w := Exec(Start(usesRedis), id, steps); PastChecks(w, p) || Won(w, p)
    ensures MadeCheck(usesRedis, id, steps, p)
  {
    var front, s := steps[..|steps| - 1], steps[|steps| - 1];
    var w := Exec(Start(usesRedis), id, front);
    OnlyByPassing(w, id, s, p);
    if !Passes(w, id, s, p) { NobodySkipsTheChecks(usesRedis, id, front, p); }
    MadeCheckBefore(usesRedis, id, steps, p);
  }

  /** In every run, a step that credits the household is the credit of one call, once, after its own passed check. */
  lemma CreditFollowsCheck(usesRedis: bool, id: RequestId, steps: seq<Step>, s: Step)
    requires var w := Exec(Start(usesRedis), id, steps); Next(w, id, s).credits != w.credits
    ensures s.Credit? && MadeCheck(usesRedis, id, steps, s.p)
    ensures Next(Exec(Start(usesRedis), id, steps), id, s).credits == Exec(Start(usesRedis), id, steps).credits + 1
  {
    NobodySkipsTheChecks(usesRedis, id, steps, s.p);
  }

  /** Whether the step is a credit that call p makes. */
  ghost function CreditMade(w: World, id: RequestId, s: Step, p: Caller): nat {
    if s.Credit? && s.p == p && Next(w, id, s).credits > w.credits then 1 else 0
  }

  /** How many credits the call made in the run. */
  ghost function CreditsBy(usesRedis: bool, id: RequestId, steps: seq<Step>, p: Caller): nat {
    if steps == [] then 0
    else
      var front := steps[..|steps| - 1];
      CreditsBy(usesRedis, id, front, p) + CreditMade(Exec(Start(usesRedis), id, front), id, steps[|steps| - 1], p)
  }

  /** The credits made and the ways left to make one are two at most. */
  predicate WithinTwo(w: World, p: Caller, made: nat) {
    && made <= 2
    && (p !in w.callers || w.callers[p].Locked? ==> made == 0)
    && (MayCredit(w, p) ==> made + w.callers[p].ways <= 2)
  }

  lemma StepWithinTwo(w: World, id: RequestId, s: Step, p: Caller, made: nat)
    requires WithinTwo(w, p, made)
    ensures WithinTwo(Next(w, id, s), p, made + CreditMade(w, id, s, p))
  {
    if s.ExpireLock? || s.Other? || s.p != p { OthersKeepPhase(w, id, s, p); }
  }

  lemma OthersKeepPhase(w: World, id: RequestId, s: Step, p: Caller)
    requires s.ExpireLock? || s.Other? || s.p != p
    ensures p in Next(w, id, s).callers <==> p in w.callers
    ensures p in w.callers ==> Next(w, id, s).callers[p] == w.callers[p]
  {
  }

  /** In every run, a call makes at most two credits: the transfer and the mint that stands in for it. */
  lemma {:induction false} TwoCreditsAtMost(usesRedis: bool, id: RequestId, steps: seq<Step>, p: Caller)
    ensures WithinTwo(Exec(Start(usesRedis), id, steps), p, CreditsBy(usesRedis, id, steps, p))
  {
    if steps != [] {
      var front := steps[..|steps| - 1];
      TwoCreditsAtMost(usesRedis, id, front, p);
      StepWithinTwo(Exec(Start(usesRedis), id, front), id, steps[|steps| - 1], p, CreditsBy(usesRedis, id, front, p));
    }
  }

  // ---------- What the lock gives ----------

  predicate Inside(w: World, p: Caller) { p in w.callers && !w.callers[p].Done? }

  /** Whoever is inside set the lock that is in place. */
  ghost predicate Serial(w: World) { forall p: Caller :: Inside(w, p) ==> w.lock == Some(p) }

  /** With Redis, calls stay one at a time at a step exactly when it does not expire the lock under a call. */
  lemma StepSerialIff(w: World, id: RequestId, s: Step)
    requires w.usesRedis && Serial(w)
    ensures Serial(Next(w, id, s)) <==> !(s.ExpireLock? && exists p :: Inside(w, p))
  {
    var n := Next(w, id, s);
    if s.ExpireLock? {
      assert forall p :: Inside(n, p) == Inside(w, p);
      if p :| Inside(w, p) {
        assert Inside(n, p) && n.lock == None;
      }
    } else {
      assert s.Unlock? && n != w ==> Inside(w, s.p);
      forall p: Caller | Inside(n, p) ensures n.lock == Some(p) {
        assert Inside(w, p) || s == TakeLock(p);
      }
    }
  }

  ghost predicate SerialThroughout(id: RequestId, steps: seq<Step>) {
    (steps == [] || SerialThroughout(id, steps[..|steps| - 1])) && Serial(Exec(Start(true), id, steps))
  }

  ghost predicate NoExpiryUnderCall(id: RequestId, steps: seq<Step>) {
    steps == [] ||
    (var front, s := steps[..|steps| - 1], steps[|steps| - 1];
     NoExpiryUnderCall(id, front) && !(s.ExpireLock? && exists p :: Inside(Exec(Start(true), id, front), p)))
  }

  lemma {:induction false} RunUsesRedis(id: RequestId, steps: seq<Step>)
    ensures Exec(Start(true), id, steps).usesRedis
  {
    if steps != [] { RunUsesRedis(id, steps[..|steps| - 1]); }
  }

  /** In every run with Redis, verifyPin calls on a request are one at a time exactly when no lock expires under one. */
  lemma {:induction false} RunSerialIff(id: RequestId, steps: seq<Step>)
    ensures SerialThroughout(id, steps) <==> NoExpiryUnderCall(id, steps)
  {
    if steps != [] {
      var front := steps[..|steps| - 1];
      RunSerialIff(id, front);
      RunUsesRedis(id, front);
      if SerialThroughout(id, front) {
        StepSerialIff(Exec(Start(true), id, front), id, steps[|steps| - 1]);
      }
    }
  }

  // ---------- Runs under a policy ----------

  /** What may happen besides the calls themselves: there is a Redis service; the lock may expire under a call; a credit
      may be made and still be reported as an error; a call may throw after its credit; while a verifyPin call is
      between its checks and its update, another service call may put the request back to PENDING, or may end it. */
  datatype Policy =
    Policy(redis: bool, expiry: bool, unconfirmed: bool, throws: bool, reopening: bool, closing: bool)

  /** The step takes the request from being served back to the open statuses. */
  ghost predicate Reopens(w: World, id: RequestId, s: Step) {
    s.Other? && id in w.db.requests && CanVerifyPin(w.db.requests[id].status)
    && id in Next(w, id, s).db.requests && Open(Next(w, id, s).db.requests[id].status)
  }

  /** The step ends the request being served, other than by completing it. */
  ghost predicate Closes(w: World, id: RequestId, s: Step) {
    s.Other? && id in w.db.requests && CanVerifyPin(w.db.requests[id].status)
    && id in Next(w, id, s).db.requests && IsTerminal(Next(w, id, s).db.requests[id].status)
  }

  ghost predicate Permits(policy: Policy, w: World, id: RequestId, s: Step) {
    && (s.ExpireLock? && !policy.expiry ==> forall p :: !Inside(w, p))
    && (s.Credit? && !policy.unconfirmed ==> s.confirmed)
    && (s.Throw? && !policy.throws ==> !(PastChecks(w, s.p) && w.callers[s.p].credited))
    && (Reopens(w, id, s) && !policy.reopening ==> forall p :: !PastChecks(w, p))
    && (Closes(w, id, s) && !policy.closing ==> forall p :: !PastChecks(w, p))
  }

  ghost predicate Runs(policy: Policy, id: RequestId, steps: seq<Step>) {
    steps == [] ||
    (var front := steps[..|steps| - 1];
     Runs(policy, id, front) && Permits(policy, Exec(Start(policy.redis), id, front), id, steps[|steps| - 1]))
  }

  ghost predicate Reaches(policy: Policy, id: RequestId, w: World) {
    exists steps :: Runs(policy, id, steps) && w == Exec(Start(policy.redis), id, steps)
  }

  lemma ReachesStart(policy: Policy, id: RequestId)
    ensures Reaches(policy, id, Start(policy.redis))
  {
    assert Runs(policy, id, []) && Exec(Start(policy.redis), id, []) == Start(policy.redis);
  }

  lemma ReachesNext(policy: Policy, id: RequestId, w: World, s: Step)
    requires Reaches(policy, id, w) && Permits(policy, w, id, s)
    ensures Reaches(policy, id, Next(w, id, s))
  {
    var steps :| Runs(policy, id, steps) && w == Exec(Start(policy.redis), id, steps);
    assert (steps + [s])[..|steps|] == steps;
    assert Exec(Start(policy.redis), id, steps + [s]) == Next(w, id, s);
    assert Runs(policy, id, steps + [s]);
  }

  /** The steps of a call that every policy permits. */
  lemma ReachesOwn(policy: Policy, id: RequestId, w: World, s: Step)
    requires Reaches(policy, id, w) && !s.ExpireLock? && !s.Other? && !s.Throw? && (s.Credit? ==> s.confirmed)
    ensures Reaches(policy, id, Next(w, id, s))
  {
    ReachesNext(policy, id, w, s);
  }

  // ---------- One credit ----------

  /** One call at a time; a call past the checks has made every credit there is, and the request is not open;
      with no such call, a credited request is over. */
  ghost predicate CreditedOnce(w: World, id: RequestId) {
    && w.usesRedis && RowsSound(w.db) && OneActivePerHousehold(w.db) && Serial(w) && w.credits <= 1
    && (forall p :: PastChecks(w, p) ==>
          && w.credits == (if w.callers[p].credited then 1 else 0)
          && id in w.db.requests && !Open(w.db.requests[id].status))
    && (w.credits == 1 && (forall p :: !PastChecks(w, p)) ==>
          id in w.db.requests && IsTerminal(w.db.requests[id].status))
  }

  predicate Strict(policy: Policy) {
    policy.redis && !policy.expiry && !policy.unconfirmed && !policy.throws && !policy.reopening
  }

  /** A request that is not open stays so, unless another call reopens it. */
  lemma StaysServedOrOver(w: World, id: RequestId, s: Step)
    requires RowsSound(w.db) && OneActivePerHousehold(w.db) && !Reopens(w, id, s)
    requires id in w.db.requests && !Open(w.db.requests[id].status)
    ensures id in Next(w, id, s).db.requests && !Open(Next(w, id, s).db.requests[id].status)
  {
    TablesMove(w, id, s);
  }

  /** Only its own steps move a call. */
  lemma OthersStay(w: World, id: RequestId, s: Step, p: Caller)
    requires s.ExpireLock? || s.Other? || s.p != p
    ensures PastChecks(Next(w, id, s), p) == PastChecks(w, p) && Inside(Next(w, id, s), p) == Inside(w, p)
    ensures PastChecks(w, p) ==> Next(w, id, s).callers[p] == w.callers[p]
  {
  }

  /** The step of the only call inside. */
  lemma OwnStepCreditsOnce(w: World, id: RequestId, s: Step)
    requires CreditedOnce(w, id) && !s.ExpireLock? && !s.Other? && Inside(w, s.p)
    requires s.Credit? ==> s.confirmed
    requires s.Throw? ==> !(PastChecks(w, s.p) && w.callers[s.p].credited)
    ensures Serial(Next(w, id, s)) ==> CreditedOnce(Next(w, id, s), id)
  {
    var n, p := Next(w, id, s), s.p;
    TablesMove(w, id, s);
    assert w.lock == Some(p);
    forall q: Caller | q != p ensures !PastChecks(w, q) && !PastChecks(n, q) {
      OthersStay(w, id, s, q);
      assert Inside(w, q) ==> w.lock == Some(q);
    }
    if PastChecks(w, p) && PastChecks(n, p) { assert n.db == w.db; }
  }

  lemma StepCreditsOnce(policy: Policy, w: World, id: RequestId, s: Step)
    requires Strict(policy) && Permits(policy, w, id, s) && CreditedOnce(w, id)
    ensures CreditedOnce(Next(w, id, s), id)
  {
    var n := Next(w, id, s);
    StepSerialIff(w, id, s);
    TablesMove(w, id, s);
    if !s.ExpireLock? && !s.Other? && Inside(w, s.p) {
      OwnStepCreditsOnce(w, id, s);
    } else {
      forall p ensures PastChecks(n, p) == PastChecks(w, p) && (PastChecks(w, p) ==> n.callers[p] == w.callers[p]) {
        if s.ExpireLock? || s.Other? || s.p != p { OthersStay(w, id, s, p); }
      }
      if p :| PastChecks(w, p) { StaysServedOrOver(w, id, s); }
    }
  }

  lemma {:induction false} StrictRunCreditsOnce(policy: Policy, id: RequestId, steps: seq<Step>)
    requires Strict(policy) && Runs(policy, id, steps)
    ensures CreditedOnce(Exec(Start(policy.redis), id, steps), id)
  {
    if steps != [] {
      var front := steps[..|steps| - 1];
      StrictRunCreditsOnce(policy, id, front);
      StepCreditsOnce(policy, Exec(Start(policy.redis), id, front), id, steps[|steps| - 1]);
    }
  }

  // ---------- And only then ----------

  /** Another service call on this request, with no call past the checks. */
  lemma OtherIsReached(policy: Policy, id: RequestId, w: World, c: Call)
    requires Reaches(policy, id, w) && !c.CompleteIfActive? && forall p :: !PastChecks(w, p)
    ensures Reaches(policy, id, w.(db := Apply(w.db, c)))
  {
    assert Next(w, id, Other(c)) == w.(db := Apply(w.db, c));
    ReachesNext(policy, id, w, Other(c));
  }

  /** Another service call that takes the request out of service under a call past the checks. */
  lemma TakenOutIsReached(policy: Policy, id: RequestId, w: World, c: Call, after: Db)
    requires Reaches(policy, id, w) && !c.CompleteIfActive? && after == Apply(w.db, c) && id in after.requests
    requires (policy.reopening && Open(after.requests[id].status))
          || (policy.closing && IsTerminal(after.requests[id].status))
    ensures Reaches(policy, id, w.(db := after))
  {
    assert Next(w, id, Other(c)) == w.(db := after);
    ReachesNext(policy, id, w, Other(c));
  }

  /** A request accepted by collector u, with nobody verifying it. */
  lemma AcceptedIsReached(policy: Policy, id: RequestId, u: User) returns (w: World)
    ensures Reaches(policy, id, w) && Ready(w, id, u) && w.usesRedis == policy.redis
    ensures w.callers == map[] && w.credits == 0
  {
    var items := map["PET" := 100];
    assert "PET" in items;
    w := Start(policy.redis);
    ReachesStart(policy, id);
    OtherIsReached(policy, id, w, Create(id, u, AUTOMATIC, items, true));
    CreatedRow(id, u, items);
    w := w.(db := Apply(w.db, Create(id, u, AUTOMATIC, items, true)));
    OtherIsReached(policy, id, w, ClaimAutomatic(id, u, items));
    ClaimedRow(w.db, id, u, u, items);
    w := w.(db := Apply(w.db, ClaimAutomatic(id, u, items)));
    OtherIsReached(policy, id, w, Accept(id, u, true, 0, 0, 0));
    AcceptedRow(w.db, id, u, u, u, items);
    w := w.(db := Apply(w.db, Accept(id, u, true, 0, 0, 0)));
  }

  /** The request is being served by u, and the lock is free. */
  ghost predicate Ready(w: World, id: RequestId, u: User) {
    && w.lock == None && id in w.db.requests
    && w.db.requests[id].collector == Some(u) && w.db.requests[id].status == ACCEPTED && w.db.requests[id].center.Some?
  }

  lemma GetsLock(policy: Policy, id: RequestId, w: World, p: Caller)
    requires Reaches(policy, id, w) && p !in w.callers && (w.usesRedis ==> w.lock == None)
    ensures Reaches(policy, id, InPhase(w, p, Locked).(lock := if w.usesRedis then Some(p) else w.lock))
  {
    ReachesOwn(policy, id, w, TakeLock(p));
  }

  lemma PassesChecks(policy: Policy, id: RequestId, w: World, u: User, p: Caller)
    requires Reaches(policy, id, w) && p in w.callers && w.callers[p] == Locked && Ready(w.(lock := None), id, u)
    ensures Reaches(policy, id, InPhase(w, p, Checked(WAYS_TO_CREDIT, false)))
  {
    ReachesOwn(policy, id, w, Check(p, u, true));
  }

  /** A new call gets past the checks of a request that is ready. */
  lemma GetsPastChecks(policy: Policy, id: RequestId, w: World, u: User, p: Caller) returns (v: World)
    requires Reaches(policy, id, w) && p !in w.callers
    requires (w.usesRedis ==> w.lock == None) && Ready(w.(lock := None), id, u)
    ensures Reaches(policy, id, v)
    ensures v == w.(callers := w.callers[p := Checked(WAYS_TO_CREDIT, false)],
                    lock := if w.usesRedis then Some(p) else w.lock)
  {
    GetsLock(policy, id, w, p);
    var t := InPhase(w, p, Locked).(lock := if w.usesRedis then Some(p) else w.lock);
    PassesChecks(policy, id, t, u, p);
    v := InPhase(t, p, Checked(WAYS_TO_CREDIT, false));
    assert v.callers == w.callers[p := Checked(WAYS_TO_CREDIT, false)];
  }

  /** Such a call can credit the household. */
  lemma GetsToCredit(policy: Policy, id: RequestId, w: World, u: User, p: Caller) returns (v: World)
    requires Reaches(policy, id, w) && p !in w.callers
    requires (w.usesRedis ==> w.lock == None) && Ready(w.(lock := None), id, u)
    ensures Reaches(policy, id, v)
    ensures v == w.(callers := w.callers[p := Checked(0, true)], credits := w.credits + 1,
                    lock := if w.usesRedis then Some(p) else w.lock)
  {
    var t := GetsPastChecks(policy, id, w, u, p);
    v := InPhase(t, p, Checked(0, true)).(credits := t.credits + 1);
    assert Next(t, id, Credit(p, true)) == v;
    ReachesOwn(policy, id, t, Credit(p, true));
    assert v.callers == w.callers[p := Checked(0, true)];
  }

  lemma LockExpires(policy: Policy, id: RequestId, w: World)
    requires policy.expiry && Reaches(policy, id, w)
    ensures Reaches(policy, id, w.(lock := None))
  {
    ReachesNext(policy, id, w, ExpireLock);
  }

  /** Without Redis nothing holds the second call back; with it, an expiry under the first one lets it in. */
  lemma ConcurrentCallsCreditTwice(policy: Policy, id: RequestId) returns (w: World)
    requires !policy.redis || policy.expiry
    ensures Reaches(policy, id, w) && w.credits == 2
  {
    var w0 := AcceptedIsReached(policy, id, 0);
    var w1 := GetsToCredit(policy, id, w0, 0, 0);
    if policy.redis {
      LockExpires(policy, id, w1);
      w1 := w1.(lock := None);
    }
    w := GetsToCredit(policy, id, w1, 0, 1);
  }

  lemma UnconfirmedCredit(policy: Policy, id: RequestId) returns (w: World)
    requires policy.unconfirmed
    ensures Reaches(policy, id, w) && w.credits == 1 && w.callers == map[0 := Checked(WAYS_TO_CREDIT - 1, false)]
  {
    var w0 := AcceptedIsReached(policy, id, 0);
    var w1 := GetsPastChecks(policy, id, w0, 0, 0);
    ReachesNext(policy, id, w1, Credit(0, false));
    w := Next(w1, id, Credit(0, false));
  }

  /** A transfer made but reported as an error is followed by a mint. */
  lemma UnconfirmedTransferIsRepeated(policy: Policy, id: RequestId) returns (w: World)
    requires policy.unconfirmed
    ensures Reaches(policy, id, w) && w.credits == 2
  {
    var w1 := UnconfirmedCredit(policy, id);
    w := Next(w1, id, Credit(0, true));
    ReachesOwn(policy, id, w1, Credit(0, true));
  }

  /** The finally block of a call that did not complete the request frees the lock. */
  lemma FinallyUnlocks(policy: Policy, id: RequestId, w: World, p: Caller) returns (v: World)
    requires Reaches(policy, id, w) && p in w.callers && (w.callers[p] == Thrown || w.callers[p] == Updated(false))
    ensures Reaches(policy, id, v)
    ensures v == w.(callers := w.callers[p := Done(false)], lock := if w.usesRedis then None else w.lock)
  {
    v := Next(w, id, Unlock(p, true));
    ReachesOwn(policy, id, w, Unlock(p, true));
  }

  /** A call that throws after its credit leaves the request to be verified, and credited, again. */
  lemma ThrowingCallIsRepeated(policy: Policy, id: RequestId) returns (w: World)
    requires policy.throws
    ensures Reaches(policy, id, w) && w.credits == 2
  {
    var w1 := CreditedIsReached(policy, id);
    CallThrows(policy, id, w1, 0);
    var w3 := FinallyUnlocks(policy, id, InPhase(w1, 0, Thrown), 0);
    w := GetsToCredit(policy, id, w3, 0, 1);
  }

  /** The update of a call whose request is not being served any more changes nothing. */
  lemma UpdateIsLost(policy: Policy, id: RequestId, w: World, p: Caller)
    requires Reaches(policy, id, w) && PastChecks(w, p)
    requires id in w.db.requests && !CanVerifyPin(w.db.requests[id].status)
    ensures Reaches(policy, id, InPhase(w, p, Updated(false)))
  {
    assert !Admits(w.db, CompleteIfActive(id, None));
    assert Next(w, id, Update(p, None)) == InPhase(w, p, Updated(false));
    ReachesOwn(policy, id, w, Update(p, None));
  }

  /** Abandoning an accepted request and accepting it again leaves it being served. */
  lemma AbandonedRow(w: World, id: RequestId, u: User) returns (open: Db)
    requires Ready(w.(lock := None), id, u)
    ensures open == Apply(w.db, Abandon(id, u)) && id in open.requests && open.requests[id].status == PENDING
    ensures Ready(w.(lock := None, db := Apply(open, Accept(id, u, true, 0, 0, 0))), id, u)
  {
    open := Apply(w.db, Abandon(id, u));
  }

  /** A call past its credit, with the request being served. */
  lemma CreditedIsReached(policy: Policy, id: RequestId) returns (w: World)
    ensures Reaches(policy, id, w) && Ready(w.(lock := None), id, 0) && w.usesRedis == policy.redis
    ensures w.callers == map[0 := Checked(0, true)] && w.credits == 1 && (!w.usesRedis ==> w.lock == None)
  {
    var w0 := AcceptedIsReached(policy, id, 0);
    w := GetsToCredit(policy, id, w0, 0, 0);
  }

  /** Taken out of service under it, the request is lost to its update. */
  lemma LosesRequest(policy: Policy, id: RequestId, w: World, c: Call, after: Db) returns (v: World)
    requires Reaches(policy, id, w) && w.callers == map[0 := Checked(0, true)]
    requires !c.CompleteIfActive? && after == Apply(w.db, c) && id in after.requests
    requires (policy.reopening && Open(after.requests[id].status))
          || (policy.closing && IsTerminal(after.requests[id].status))
    ensures Reaches(policy, id, v) && v == w.(db := after, callers := map[0 := Updated(false)])
  {
    TakenOutIsReached(policy, id, w, c, after);
    UpdateIsLost(policy, id, w.(db := after), 0);
    v := w.(db := after, callers := map[0 := Updated(false)]);
    assert InPhase(w.(db := after), 0, Updated(false)) == v;
  }

  /** A request abandoned between a credit and its update is on offer again, and the lock is free. */
  lemma ReopenedAfterCredit(policy: Policy, id: RequestId) returns (w: World)
    requires policy.reopening
    ensures Reaches(policy, id, w) && w.credits == 1 && w.callers == map[0 := Done(false)] && w.lock == None
    ensures Ready(w.(db := Apply(w.db, Accept(id, 0, true, 0, 0, 0))), id, 0)
  {
    var w0 := CreditedIsReached(policy, id);
    var open := AbandonedRow(w0, id, 0);
    var w1 := LosesRequest(policy, id, w0, Abandon(id, 0), open);
    w := FinallyUnlocks(policy, id, w1, 0);
    assert w == w0.(db := open, callers := map[0 := Done(false)], lock := None);
  }

  /** Accepted again, it is credited again. */
  lemma ReopenedRequestIsRepeated(policy: Policy, id: RequestId) returns (w: World)
    requires policy.reopening
    ensures Reaches(policy, id, w) && w.credits == 2
  {
    var w1 := ReopenedAfterCredit(policy, id);
    OtherIsReached(policy, id, w1, Accept(id, 0, true, 0, 0, 0));
    w := GetsToCredit(policy, id, w1.(db := Apply(w1.db, Accept(id, 0, true, 0, 0, 0))), 0, 1);
  }

  /** A request is credited on chain at most once in all runs exactly when there is a Redis service, its lock never
      expires under a call, no credit is reported as an error, no call throws after its credit, and no other call
      reopens the request between the checks and the update of one. */
  lemma CreditedAtMostOnceIff(policy: Policy, id: RequestId)
    ensures (forall w :: Reaches(policy, id, w) ==> w.credits <= 1) <==> Strict(policy)
  {
    if Strict(policy) {
      forall w | Reaches(policy, id, w) ensures w.credits <= 1 {
        var steps :| Runs(policy, id, steps) && w == Exec(Start(policy.redis), id, steps);
        StrictRunCreditsOnce(policy, id, steps);
      }
    } else {
      var w;
      if !policy.redis || policy.expiry {
        w := ConcurrentCallsCreditTwice(policy, id);
      } else if policy.unconfirmed {
        w := UnconfirmedTransferIsRepeated(policy, id);
      } else if policy.throws {
        w := ThrowingCallIsRepeated(policy, id);
      } else {
        w := ReopenedRequestIsRepeated(policy, id);
      }
      assert Reaches(policy, id, w) && w.credits > 1;
    }
  }

  /** Under that policy, a credited request that nobody is verifying any more is over. */
  lemma CreditedRequestIsOver(policy: Policy, id: RequestId, w: World)
    requires Strict(policy) && Reaches(policy, id, w) && w.credits > 0 && forall p :: !PastChecks(w, p)
    ensures id in w.db.requests && IsTerminal(w.db.requests[id].status)
  {
    var steps :| Runs(policy, id, steps) && w == Exec(Start(policy.redis), id, steps);
    StrictRunCreditsOnce(policy, id, steps);
  }

  // ---------- When a credited request is completed ----------

  ghost predicate Completed(w: World) { exists p :: Won(w, p) }

  ghost predicate CreditPending(w: World) { exists p :: PastChecks(w, p) && w.callers[p].credited }

  /** A credit belongs to a completion or to a call on its way there, and a call past the checks finds the request
      being served until one completes it. */
  ghost predicate CreditsLeadToCompletion(w: World, id: RequestId) {
    && RowsSound(w.db) && OneActivePerHousehold(w.db)
    && (w.credits > 0 ==> CreditPending(w) || Completed(w))
    && ((exists p :: PastChecks(w, p)) ==>
          Completed(w) || (id in w.db.requests && CanVerifyPin(w.db.requests[id].status)))
  }

  predicate Unhindered(policy: Policy) {
    !policy.unconfirmed && !policy.throws && !policy.reopening && !policy.closing
  }

  lemma CompletionLasts(w: World, id: RequestId, s: Step)
    requires Completed(w)
    ensures Completed(Next(w, id, s))
  {
    var p :| Won(w, p);
    WonMoves(w, id, s, p);
  }

  /** While calls are past the checks, another call that neither reopens nor ends the request leaves it being served. */
  lemma OtherLeavesServed(w: World, id: RequestId, s: Step)
    requires RowsSound(w.db) && OneActivePerHousehold(w.db) && (s.Other? || s.ExpireLock?)
    requires id in w.db.requests && CanVerifyPin(w.db.requests[id].status) && !Reopens(w, id, s) && !Closes(w, id, s)
    ensures id in Next(w, id, s).db.requests && CanVerifyPin(Next(w, id, s).db.requests[id].status)
  {
    StaysServedOrOver(w, id, s);
  }

  /** A credited call stays on its way until its own update, which completes the request if none has. */
  lemma CreditedCallMoves(policy: Policy, w: World, id: RequestId, s: Step, p: Caller)
    requires Unhindered(policy) && Permits(policy, w, id, s) && CreditsLeadToCompletion(w, id)
    requires PastChecks(w, p) && w.callers[p].credited
    ensures CreditPending(Next(w, id, s)) || Completed(Next(w, id, s))
  {
    var n := Next(w, id, s);
    if Completed(w) {
      CompletionLasts(w, id, s);
    } else if s.Update? && s.p == p {
      assert Won(n, p);
    } else {
      if s.ExpireLock? || s.Other? || s.p != p { OthersStay(w, id, s, p); }
      assert PastChecks(n, p) && n.callers[p].credited;
    }
  }

  lemma StepLeadsToCompletion(policy: Policy, w: World, id: RequestId, s: Step)
    requires Unhindered(policy) && Permits(policy, w, id, s) && CreditsLeadToCompletion(w, id)
    ensures CreditsLeadToCompletion(Next(w, id, s), id)
  {
    var n := Next(w, id, s);
    TablesMove(w, id, s);
    if Completed(w) {
      CompletionLasts(w, id, s);
    } else {
      if p :| PastChecks(w, p) && w.callers[p].credited {
        CreditedCallMoves(policy, w, id, s, p);
      } else if n.credits > 0 {
        assert PastChecks(n, s.p) && n.callers[s.p].credited;
      }
      if p :| PastChecks(n, p) { ServedWhilePastChecks(policy, w, id, s, p); }
    }
  }

  lemma ServedWhilePastChecks(policy: Policy, w: World, id: RequestId, s: Step, p: Caller)
    requires Unhindered(policy) && Permits(policy, w, id, s) && CreditsLeadToCompletion(w, id)
    requires !Completed(w) && PastChecks(Next(w, id, s), p)
    ensures var n := Next(w, id, s);
      Completed(n) || (id in n.db.requests && CanVerifyPin(n.db.requests[id].status))
  {
    var n := Next(w, id, s);
    if s.Other? || s.ExpireLock? {
      OthersStay(w, id, s, p);
      OtherLeavesServed(w, id, s);
    } else if n.db != w.db {
      assert s.Update? && PastChecks(w, s.p);
      assert Won(n, s.p);
    } else if !PastChecks(w, p) {
      assert s.Check? && s.p == p;
    }
  }

  lemma {:induction false} UnhinderedRunCompletes(policy: Policy, id: RequestId, steps: seq<Step>)
    requires Unhindered(policy) && Runs(policy, id, steps)
    ensures CreditsLeadToCompletion(Exec(Start(policy.redis), id, steps), id)
  {
    if steps != [] {
      var front := steps[..|steps| - 1];
      UnhinderedRunCompletes(policy, id, front);
      StepLeadsToCompletion(policy, Exec(Start(policy.redis), id, front), id, steps[|steps| - 1]);
    }
  }

  lemma CallThrows(policy: Policy, id: RequestId, w: World, p: Caller)
    requires Reaches(policy, id, w) && PastChecks(w, p) && (policy.throws || !w.callers[p].credited)
    ensures Reaches(policy, id, InPhase(w, p, Thrown))
  {
    assert Next(w, id, Throw(p)) == InPhase(w, p, Thrown);
    ReachesNext(policy, id, w, Throw(p));
  }

  /** A call throws after its credit, or after one it took for failed: nobody completes the request. */
  lemma ThrownCreditIsNotCompleted(policy: Policy, id: RequestId) returns (w: World)
    requires policy.throws || policy.unconfirmed
    ensures Reaches(policy, id, w) && w.credits == 1 && w.callers == map[0 := Thrown]
  {
    var w1;
    if policy.unconfirmed {
      w1 := UnconfirmedCredit(policy, id);
    } else {
      w1 := CreditedIsReached(policy, id);
    }
    CallThrows(policy, id, w1, 0);
    w := InPhase(w1, 0, Thrown);
  }

  lemma CancelledRow(w: World, id: RequestId, u: User) returns (over: Db)
    requires Ready(w.(lock := None), id, u)
    ensures over == Apply(w.db, CancelByCollector(id, u))
    ensures id in over.requests && over.requests[id].status == CANCELLED
  {
    over := Apply(w.db, CancelByCollector(id, u));
  }

  /** A request cancelled between a credit and its update stays cancelled, and its household paid. */
  lemma CancelledAfterCredit(policy: Policy, id: RequestId) returns (w: World)
    requires policy.closing
    ensures Reaches(policy, id, w) && w.credits == 1 && w.callers == map[0 := Updated(false)]
    ensures id in w.db.requests && w.db.requests[id].status == CANCELLED
  {
    var w0 := CreditedIsReached(policy, id);
    var over := CancelledRow(w0, id, 0);
    w := LosesRequest(policy, id, w0, CancelByCollector(id, 0), over);
  }

  /** Once nobody is verifying it any more, a credited request has been completed by a verifyPin call, in all runs
      exactly when no credit is reported as an error, no call throws after its credit, and no other call reopens or ends
      the request between the checks and the update of one. Neither Redis nor its lock matters for this. */
  lemma CreditedMeansCompletedIff(policy: Policy, id: RequestId)
    ensures (forall w :: Reaches(policy, id, w) && w.credits > 0 && (forall p :: !PastChecks(w, p)) ==> Completed(w))
       <==> !policy.unconfirmed && !policy.throws && !policy.reopening && !policy.closing
  {
    if Unhindered(policy) {
      forall w | Reaches(policy, id, w) && w.credits > 0 && (forall p :: !PastChecks(w, p)) ensures Completed(w) {
        var steps :| Runs(policy, id, steps) && w == Exec(Start(policy.redis), id, steps);
        UnhinderedRunCompletes(policy, id, steps);
      }
    } else {
      var w;
      if policy.unconfirmed || policy.throws {
        w := ThrownCreditIsNotCompleted(policy, id);
      } else if policy.reopening {
        w := ReopenedAfterCredit(policy, id);
      } else {
        w := CancelledAfterCredit(policy, id);
      }
      assert Reaches(policy, id, w) && w.credits > 0 && (forall p :: !PastChecks(w, p)) && !Completed(w);
    }
  }

  // ---------- What an expiry does to the lock ----------

  /** An expiry between them lets a second call past the checks while the first is there. */
  lemma TwoPastTheChecks(policy: Policy, id: RequestId, p: Caller, q: Caller) returns (w: World)
    requires policy.redis && policy.expiry && p != q
    ensures Reaches(policy, id, w) && w.usesRedis && w.lock == Some(q) && PastChecks(w, p) && PastChecks(w, q)
    ensures id in w.db.requests && CanVerifyPin(w.db.requests[id].status)
  {
    var w0 := AcceptedIsReached(policy, id, 0);
    var w1 := GetsPastChecks(policy, id, w0, 0, p);
    LockExpires(policy, id, w1);
    w := GetsPastChecks(policy, id, w1.(lock := None), 0, q);
  }

  /** After an expiry, the unconditional delete of a late call takes away the lock of a call still inside. */
  lemma LateUnlockDropsAnothersLock(policy: Policy, id: RequestId, p: Caller, q: Caller) returns (w: World)
    requires policy.redis && policy.expiry && p != q
    ensures Reaches(policy, id, w) && w.lock == Some(q)
    ensures Next(w, id, Unlock(p, true)).lock == None && Inside(Next(w, id, Unlock(p, true)), q)
  {
    var v := TwoPastTheChecks(policy, id, p, q);
    w := Next(v, id, Update(p, None));
    ReachesOwn(policy, id, v, Update(p, None));
    assert w.callers[p].Updated?;
  }
}
