/** The timeout worker selects rows and then writes each of them by id: what such a write does when it comes late, among
    other calls, and what runs with late writes still keep. */
module StaleWrites {
  import opened Collections
  import opened CollectionRuns
  import opened Wrappers

  // ---------- One late write ----------

  /** Timeout steps select rows first and then write each selected row by id, without looking again. */
  predicate IsTimeout(c: Call) {
    c.PendingTimeout? || c.InactivityTimeout? || c.ArrivedTimeout? || c.ExpireAuction? || c.ExpireAuctionRowOnly?
  }

  /** Such a write, whatever happened to the row since it was selected. */
  ghost function Overwritten(db: Db, c: Call): Db {
    Db(db.requests[c.id := Row(c, Before(db, c), db.bids)], Bids(c, db.bids))
  }

  /** The tables keep the lifecycle, and no terminal request becomes active. */
  ghost predicate KeepsLifecycle(before: Db, after: Db) {
    && RowsSound(after) && OneActivePerHousehold(after)
    && forall id :: id in before.requests && IsTerminal(before.requests[id].status) ==>
         id in after.requests && IsTerminal(after.requests[id].status)
  }

  /** Writing a row keeps the lifecycle exactly when the row is sound and does not bring a terminal request back. */
  lemma RowWriteKeepsLifecycleIff(db: Db, id: RequestId, r: Request, bids: map<BidId, Bid>)
    requires RowsSound(db) && OneActivePerHousehold(db) && id in db.requests && r.household == db.requests[id].household
    ensures KeepsLifecycle(db, Db(db.requests[id := r], bids))
       <==> RowSound(r) && (IsTerminal(db.requests[id].status) ==> IsTerminal(r.status))
  {
    var after := Db(db.requests[id := r], bids);
    assert after.requests[id] == r;
    if IsTerminal(db.requests[id].status) ==> IsTerminal(r.status) {
      assert forall j :: j in after.requests && !IsTerminal(after.requests[j].status) ==>
        !IsTerminal(db.requests[j].status) && after.requests[j].household == db.requests[j].household;
    }
  }

  /** When a timeout may still write a row it selected earlier. */
  predicate MayStillWrite(c: Call, status: Status) {
    || c.PendingTimeout? || c.ArrivedTimeout?
    || (c.InactivityTimeout? && !IsTerminal(status))
    || ((c.ExpireAuction? || c.ExpireAuctionRowOnly?) && Open(status))
  }

  lemma StaleRow(c: Call, r: Request, bids: map<BidId, Bid>)
    requires RowSound(r) && IsTimeout(c)
    ensures Row(c, r, bids).household == r.household
    ensures RowSound(Row(c, r, bids)) && (IsTerminal(r.status) ==> IsTerminal(Row(c, r, bids).status))
       <==> MayStillWrite(c, r.status)
  {
  }

  /** A stale write keeps the lifecycle exactly when: always, for the steps that close a request; while the request is
      not over, for the inactivity step; while it is open, for the auction fallbacks. */
  lemma StaleWriteKeepsLifecycleIff(db: Db, c: Call)
    requires RowsSound(db) && OneActivePerHousehold(db) && IsTimeout(c) && c.id in db.requests
    ensures KeepsLifecycle(db, Overwritten(db, c)) <==> MayStillWrite(c, db.requests[c.id].status)
  {
    StaleRow(c, db.requests[c.id], db.bids);
    RowWriteKeepsLifecycleIff(db, c.id, Row(c, db.requests[c.id], db.bids), Bids(c, db.bids));
  }

  lemma StaleWriteKeepsChosen(db: Db, c: Call)
    requires AssignedHasChosen(db) && IsTimeout(c) && c.id in db.requests
    ensures AssignedHasChosen(Overwritten(db, c))
  {
    var after := Overwritten(db, c);
    forall id | id in after.requests && after.requests[id].status == AUCTION_ASSIGNED
      ensures HasChosenBid(after, id)
    {
      var b :| b in db.bids && db.bids[b].request == id && db.bids[b].status == CHOSEN;
      assert after.bids[b] == db.bids[b];
    }
  }

  /** A timeout leaves every bid with its request, center and rates, and every chosen bid as it is. */
  lemma StaleBids(db: Db, c: Call)
    requires IsTimeout(c)
    ensures var bids := Overwritten(db, c).bids;
      && bids.Keys == db.bids.Keys
      && (forall b :: b in bids ==> SameBidder(bids[b], db.bids[b]) && bids[b].rates == db.bids[b].rates)
      && (forall b :: b in bids ==> (bids[b].status == CHOSEN <==> db.bids[b].status == CHOSEN))
  {
  }

  lemma StaleRowAgreement(c: Call, r: Request, bids: map<BidId, Bid>)
    requires IsTimeout(c)
    ensures var after := Row(c, r, bids);
      after.center == r.center && after.agreedRates == r.agreedRates && after.status != AUCTION_ACTIVE
  {
  }

  /** The agreement between bids and requests survives any late write. */
  lemma StaleWriteKeepsAuctions(db: Db, c: Call)
    requires AuctionSound(db) && IsTimeout(c) && c.id in db.requests
    ensures AuctionSound(Overwritten(db, c))
  {
    StaleBids(db, c);
    StaleRowAgreement(c, db.requests[c.id], db.bids);
    StaleWriteKeepsChosen(db, c);
    var after := Overwritten(db, c);
    assert forall b :: b in after.bids ==> b in db.bids && after.bids[b].request == db.bids[b].request;
  }

  /** A write that is not late is the step itself; a late one writes the same status, closes the same bids, and leaves
      every other row and bid alone. */
  lemma StaleWriteIs(db: Db, c: Call)
    requires IsTimeout(c) && c.id in db.requests
    ensures Admits(db, c) ==> Overwritten(db, c) == Apply(db, c)
    ensures var after := Overwritten(db, c);
      && (forall id :: id != c.id && id in db.requests ==>
            id in after.requests && after.requests[id] == db.requests[id])
      && c.id in after.requests && after.requests[c.id].status == StatusAfterTimeout(c)
      && (forall b :: b in db.bids ==> b in after.bids && after.bids[b] == StaleBid(c, db.bids[b]))
  {
  }

  function StatusAfterTimeout(c: Call): Status
    requires IsTimeout(c)
  {
    if c.PendingTimeout? then CANCELLED else if c.ArrivedTimeout? then UNATTENDED else PENDING
  }

  function StaleBid(c: Call, bid: Bid): Bid {
    if c.ExpireAuction? && bid.request == c.id && bid.status == OFFERED then bid.(status := EXPIRED) else bid
  }

  // ---------- Runs with late writes ----------

  /** A service call, or the write of a timeout step on a row it selected some time before. */
  datatype Step = Do(call: Call) | Late(write: Call)

  /** The write goes through. */
  predicate Writes(db: Db, s: Step) { s.Late? && IsTimeout(s.write) && s.write.id in db.requests }

  ghost function Next(db: Db, s: Step): Db {
    if s.Do? then Apply(db, s.call) else if Writes(db, s) then Overwritten(db, s.write) else db
  }

  ghost function ExecLate(steps: seq<Step>): Db {
    if steps == [] then EMPTY_DB else Next(ExecLate(steps[..|steps| - 1]), steps[|steps| - 1])
  }

  /** Every step of the run keeps the lifecycle. */
  ghost predicate KeptThroughout(steps: seq<Step>) {
    steps == [] ||
    (KeptThroughout(steps[..|steps| - 1]) && KeepsLifecycle(ExecLate(steps[..|steps| - 1]), ExecLate(steps)))
  }

  /** Every late write finds its row in a status it may still write. */
  ghost predicate FindsWritable(steps: seq<Step>) {
    steps == [] ||
    (var db, s := ExecLate(steps[..|steps| - 1]), steps[|steps| - 1];
     FindsWritable(steps[..|steps| - 1]) && (Writes(db, s) ==> MayStillWrite(s.write, db.requests[s.write.id].status)))
  }

  lemma CallKeepsLifecycle(db: Db, c: Call)
    requires RowsSound(db) && OneActivePerHousehold(db)
    ensures KeepsLifecycle(db, Apply(db, c))
  {
    ApplyKeepsLifecycle(db, c);
    forall id | id in db.requests && IsTerminal(db.requests[id].status)
      ensures id in Apply(db, c).requests && IsTerminal(Apply(db, c).requests[id].status)
    {
      TerminalIsClosed(db, c, id);
    }
  }

  lemma StepKeepsLifecycleIff(db: Db, s: Step)
    requires RowsSound(db) && OneActivePerHousehold(db)
    ensures KeepsLifecycle(db, Next(db, s))
       <==> (Writes(db, s) ==> MayStillWrite(s.write, db.requests[s.write.id].status))
  {
    if s.Do? {
      CallKeepsLifecycle(db, s.call);
    } else if Writes(db, s) {
      StaleWriteKeepsLifecycleIff(db, s.write);
    }
  }

  lemma {:induction false} KeptRunIsSound(steps: seq<Step>)
    requires KeptThroughout(steps)
    ensures RowsSound(ExecLate(steps)) && OneActivePerHousehold(ExecLate(steps))
  {
  }

  /** In every run with late writes, every step keeps the lifecycle exactly when every late write finds its row in a
      status it may still write. */
  lemma {:induction false} RunKeepsLifecycleIff(steps: seq<Step>)
    ensures KeptThroughout(steps) <==> FindsWritable(steps)
  {
    if steps != [] {
      var front := steps[..|steps| - 1];
      RunKeepsLifecycleIff(front);
      if KeptThroughout(front) {
        KeptRunIsSound(front);
        StepKeepsLifecycleIff(ExecLate(front), steps[|steps| - 1]);
      }
    }
  }

  /** In every run, with whatever late writes, bids and requests agree as they do without them. */
  lemma {:induction false} LateRunKeepsAuctions(steps: seq<Step>)
    ensures AuctionSound(ExecLate(steps))
  {
    if steps != [] {
      var db, s := ExecLate(steps[..|steps| - 1]), steps[|steps| - 1];
      LateRunKeepsAuctions(steps[..|steps| - 1]);
      if s.Do? {
        ApplyKeepsAuctions(db, s.call);
      } else if Writes(db, s) {
        StaleWriteKeepsAuctions(db, s.write);
      }
    }
  }

  // ---------- Which timeouts may come late ----------

  /** The row was due for the write at some earlier point of the run. */
  ghost predicate SelectedBefore(steps: seq<Step>, write: Call) {
    exists j :: 0 <= j <= |steps| && Admits(ExecLate(steps[..j]), write)
  }

  /** Which timeout steps may write late, besides those that close a request: inactivity, and the auction fallbacks. */
  datatype Policy = Policy(inactivity: bool, fallbacks: bool)

  const GUARDED := Policy(false, false)

  predicate Permits(policy: Policy, c: Call) {
    && IsTimeout(c)
    && (c.InactivityTimeout? ==> policy.inactivity)
    && (c.ExpireAuction? || c.ExpireAuctionRowOnly? ==> policy.fallbacks)
  }

  ghost predicate RunOf(policy: Policy, steps: seq<Step>) {
    steps == [] ||
    (var front, s := steps[..|steps| - 1], steps[|steps| - 1];
     RunOf(policy, front) && (s.Late? ==> Permits(policy, s.write) && SelectedBefore(front, s.write)))
  }

  function Doing(calls: seq<Call>): (steps: seq<Step>)
    ensures |steps| == |calls|
    ensures forall i :: 0 <= i < |calls| ==> steps[i] == Do(calls[i])
  {
    seq(|calls|, i requires 0 <= i < |calls| => Do(calls[i]))
  }

  lemma {:induction false} DoingIsExec(policy: Policy, calls: seq<Call>)
    ensures ExecLate(Doing(calls)) == Exec(calls) && RunOf(policy, Doing(calls))
  {
    if calls != [] {
      assert Doing(calls)[..|calls| - 1] == Doing(calls[..|calls| - 1]);
      DoingIsExec(policy, calls[..|calls| - 1]);
    }
  }

  /** A run of calls, and then a late write of a row that was due after the first n of them. */
  lemma LateAtEnd(policy: Policy, calls: seq<Call>, n: nat, write: Call) returns (steps: seq<Step>)
    requires n <= |calls| && Permits(policy, write) && Admits(Exec(calls[..n]), write)
    requires write.id in Exec(calls).requests
    ensures steps == Doing(calls) + [Late(write)] && RunOf(policy, steps)
    ensures ExecLate(steps) == Overwritten(Exec(calls), write)
    ensures KeptThroughout(steps) ==> MayStillWrite(write, Exec(calls).requests[write.id].status)
  {
    steps := Doing(calls) + [Late(write)];
    assert steps[..|calls|] == Doing(calls);
    DoingIsExec(policy, calls);
    DoingIsExec(policy, calls[..n]);
    assert Doing(calls)[..n] == Doing(calls[..n]);
    RunKeepsLifecycleIff(steps);
  }

  /** A collector lets an accepted request lie, and then cancels it; the household asks again. */
  function CancelledRun(): seq<Call> {
    AcceptedRun(0, 7, 8, 9) + [CancelByCollector(0, 9)] + [Create(1, 7, AUTOMATIC, map["PET" := 100], true)]
  }

  lemma CancelledRunRows()
    ensures var db := Exec(CancelledRun());
      && 0 in db.requests && db.requests[0].status == CANCELLED && db.requests[0].household == 7
      && 1 in db.requests && db.requests[1].status == PENDING && db.requests[1].household == 7
  {
    AcceptedRunRow(0, 7, 8, 9);
    ExecAppend(AcceptedRun(0, 7, 8, 9), CancelByCollector(0, 9));
    ExecAppend(AcceptedRun(0, 7, 8, 9) + [CancelByCollector(0, 9)], Create(1, 7, AUTOMATIC, map["PET" := 100], true));
  }

  lemma CancelledRunIsSelected()
    ensures Admits(Exec(CancelledRun()[..3]), InactivityTimeout(0))
  {
    AcceptedRunRow(0, 7, 8, 9);
    assert CancelledRun()[..3] == AcceptedRun(0, 7, 8, 9);
  }

  lemma RevivedBeside(db: Db)
    requires 0 in db.requests && db.requests[0].household == 7
    requires 1 in db.requests && db.requests[1].status == PENDING && db.requests[1].household == 7
    ensures var after := Overwritten(db, InactivityTimeout(0));
      0 in after.requests && after.requests[0].status == PENDING && !OneActivePerHousehold(after)
  {
    var after := Overwritten(db, InactivityTimeout(0));
    assert after.requests[0].household == after.requests[1].household;
  }

  /** Selected while it lay, such a request is brought back by the late inactivity step, beside the new one. */
  lemma LateInactivityRevivesRequest(policy: Policy) returns (steps: seq<Step>)
    requires policy.inactivity
    ensures RunOf(policy, steps) && !KeptThroughout(steps)
    ensures steps == Doing(CancelledRun()) + [Late(InactivityTimeout(0))]
    ensures var before, after := ExecLate(Doing(CancelledRun())), ExecLate(steps);
      && 0 in before.requests && before.requests[0].status == CANCELLED && OneActivePerHousehold(before)
      && 0 in after.requests && after.requests[0].status == PENDING && !OneActivePerHousehold(after)
  {
    CancelledRunIsSelected();
    CancelledRunRows();
    LifecycleInvariant(CancelledRun());
    DoingIsExec(policy, CancelledRun());
    steps := LateAtEnd(policy, CancelledRun(), 3, InactivityTimeout(0));
    RevivedBeside(Exec(CancelledRun()));
  }

  function CancelledAuction(): seq<Call> {
    [Create(0, 7, AUCTION, map["PET" := 100], true)] + [CancelByHousehold(0, 7)]
  }

  lemma CancelledAuctionRows()
    ensures Admits(Exec(CancelledAuction()[..1]), ExpireAuction(0))
    ensures 0 in Exec(CancelledAuction()).requests && Exec(CancelledAuction()).requests[0].status == CANCELLED
  {
    var create := Create(0, 7, AUCTION, map["PET" := 100], true);
    ExecAppend([], create);
    assert [] + [create] == [create] && CancelledAuction()[..1] == [create];
    ExecAppend([create], CancelByHousehold(0, 7));
  }

  /** An auction selected as expired and then cancelled by its household is brought back by the late fallback. */
  lemma LateFallbackRevivesRequest(policy: Policy) returns (steps: seq<Step>)
    requires policy.fallbacks
    ensures RunOf(policy, steps) && !KeptThroughout(steps)
    ensures steps == Doing(CancelledAuction()) + [Late(ExpireAuction(0))]
  {
    CancelledAuctionRows();
    steps := LateAtEnd(policy, CancelledAuction(), 1, ExpireAuction(0));
  }

  function CompletedRun(): seq<Call> { AcceptedRun(0, 7, 8, 9) + [CompleteIfActive(0, None)] }

  lemma CompletedRunIsSelected()
    ensures Admits(Exec(CompletedRun()[..1]), PendingTimeout(0))
  {
    var create := Create(0, 7, AUTOMATIC, map["PET" := 100], true);
    ExecAppend([], create);
    CreatedRow(0, 7, map["PET" := 100]);
    assert [] + [create] == [create] && CompletedRun()[..1] == [create];
  }

  lemma CompletedRunRows()
    ensures 0 in Exec(CompletedRun()).requests && Exec(CompletedRun()).requests[0].status == COMPLETED
  {
    AcceptedRunRow(0, 7, 8, 9);
    ExecAppend(AcceptedRun(0, 7, 8, 9), CompleteIfActive(0, None));
  }

  /** Keeping the lifecycle is not keeping the outcome: a request selected while pending, then served and completed, is
      CANCELLED by the late write, in a run that keeps the lifecycle throughout. */
  lemma LateClosingOverwritesCompletion(policy: Policy) returns (steps: seq<Step>)
    ensures RunOf(policy, steps) && KeptThroughout(steps)
    ensures steps == Doing(CompletedRun()) + [Late(PendingTimeout(0))]
    ensures var before, after := ExecLate(Doing(CompletedRun())), ExecLate(steps);
      && 0 in before.requests && before.requests[0].status == COMPLETED
      && 0 in after.requests && after.requests[0].status == CANCELLED
  {
    CompletedRunIsSelected();
    CompletedRunRows();
    DoingIsExec(GUARDED, CompletedRun());
    steps := LateAtEnd(GUARDED, CompletedRun(), 1, PendingTimeout(0));
    ClosingWritesMayBeLate(GUARDED, steps);
    RunKeepsLifecycleIff(steps);
    steps := LateAtEnd(policy, CompletedRun(), 1, PendingTimeout(0));
  }

  lemma {:induction false} ClosingWritesMayBeLate(policy: Policy, steps: seq<Step>)
    requires RunOf(policy, steps) && !policy.inactivity && !policy.fallbacks
    ensures FindsWritable(steps)
  {
    if steps != [] { ClosingWritesMayBeLate(policy, steps[..|steps| - 1]); }
  }

  /** All runs keep the lifecycle exactly when neither the inactivity step nor an auction fallback ever writes late. */
  lemma LifecycleIsKeptIff(policy: Policy)
    ensures (forall steps :: RunOf(policy, steps) ==> KeptThroughout(steps))
       <==> !policy.inactivity && !policy.fallbacks
  {
    if policy.inactivity {
      var steps := LateInactivityRevivesRequest(policy);
    } else if policy.fallbacks {
      var steps := LateFallbackRevivesRequest(policy);
    } else {
      forall steps | RunOf(policy, steps) ensures KeptThroughout(steps) {
        ClosingWritesMayBeLate(policy, steps);
        RunKeepsLifecycleIff(steps);
      }
    }
  }
}
