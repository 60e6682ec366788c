/** What the service calls mean for the calls after them: what a request, its household, its bidders and its
    collector can do next, and what happens to everyone's escrow. */
module CollectionEffects {
  import opened Wrappers
  import opened Sums
  import opened Collections
  import opened CollectionRuns

  /** What every run keeps. */
  ghost predicate Sound(db: Db) { RowsSound(db) && OneActivePerHousehold(db) && AuctionSound(db) }

  lemma ApplyKeepsSound(db: Db, c: Call)
    requires Sound(db)
    ensures Sound(Apply(db, c))
  {
    ApplyKeepsLifecycle(db, c);
    ApplyKeepsAuctions(db, c);
  }

  ghost predicate OthersStay(before: Db, after: Db, id: RequestId) {
    && (forall j :: j != id ==> (j in after.requests <==> j in before.requests))
    && (forall j :: j != id && j in before.requests ==> after.requests[j] == before.requests[j])
  }

  /** Everyone's escrow is what it was, less what request `id` held. */
  ghost predicate EscrowReleased(before: Db, after: Db, id: RequestId) {
    && id in before.requests
    && forall u: User :: InEscrow(after, u) == InEscrow(before, u) - HeldBy(before.requests[id], u)
  }

  ghost predicate EscrowStays(before: Db, after: Db) { forall u: User :: InEscrow(after, u) == InEscrow(before, u) }

  /** A call that leaves the bids alone writes its own row. */
  lemma OneRowCall(db: Db, c: Call)
    requires Admits(db, c) && LeavesBids(c)
    ensures Apply(db, c) == Db(db.requests[c.id := Row(c, Before(db, c), db.bids)], db.bids)
    ensures OthersStay(db, Apply(db, c), c.id)
  {
  }

  lemma ReleasingCall(db: Db, c: Call)
    requires RowsSound(db) && Admits(db, c) && !c.Create?
    requires !CanVerifyPin(Row(c, Before(db, c), db.bids).status)
    ensures EscrowReleased(db, Apply(db, c), c.id)
  {
    forall u: User ensures InEscrow(Apply(db, c), u) == InEscrow(db, u) - HeldBy(db.requests[c.id], u) {
      EscrowAccounting(db, c, u);
    }
  }

  lemma EscrowUnmoved(db: Db, c: Call)
    requires RowsSound(db) && Admits(db, c) && !c.Accept?
    requires forall u: User :: HeldBy(Row(c, Before(db, c), db.bids), u) == HeldBy(Before(db, c), u)
    ensures EscrowStays(db, Apply(db, c))
  {
    forall u: User ensures InEscrow(Apply(db, c), u) == InEscrow(db, u) {
      EscrowMoves(db, c, u);
      assert Get(Held(db, u), c.id) == HeldBy(Before(db, c), u);
    }
  }

  // ---------- Closing a request ----------

  /** The request is over with the given status: its collector has the escrow back, its household may ask again,
      and no verification completes it any more. */
  ghost predicate Closed(before: Db, after: Db, id: RequestId, to: Status) {
    && id in before.requests && id in after.requests && OthersStay(before, after, id) && after.bids == before.bids
    && after.requests[id].status == to && IsTerminal(to)
    && EscrowReleased(before, after, id)
    && (!IsTerminal(before.requests[id].status) ==> !HouseholdIsBusy(after, before.requests[id].household))
    && forall batch :: !Admits(after, CompleteIfActive(id, batch))
  }

  predicate Closes(c: Call) {
    c.CancelByCollector? || c.CancelByHousehold? || c.ReportNoShow? || c.RejectOnSite? || c.CompleteIfActive?
    || c.PendingTimeout? || c.ArrivedTimeout?
  }

  function FinalStatus(c: Call): Status {
    if c.ReportNoShow? || c.ArrivedTimeout? then UNATTENDED
    else if c.RejectOnSite? then REJECTED_ON_SITE
    else if c.CompleteIfActive? then COMPLETED
    else CANCELLED
  }

  lemma ClosingFreesHousehold(db: Db, id: RequestId, r: Request)
    requires OneActivePerHousehold(db) && id in db.requests
    requires !IsTerminal(db.requests[id].status) && IsTerminal(r.status)
    ensures !HouseholdIsBusy(Db(db.requests[id := r], db.bids), db.requests[id].household)
  {
  }

  lemma ClosedRow(db: Db, c: Call)
    requires Admits(db, c) && Closes(c)
    ensures Row(c, Before(db, c), db.bids).status == FinalStatus(c)
  {
  }

  lemma ClosingCall(db: Db, c: Call)
    requires RowsSound(db) && OneActivePerHousehold(db) && Admits(db, c) && Closes(c)
    ensures Closed(db, Apply(db, c), c.id, FinalStatus(c))
  {
    var r := Row(c, Before(db, c), db.bids);
    OneRowCall(db, c);
    ClosedRow(db, c);
    ReleasingCall(db, c);
    if !IsTerminal(db.requests[c.id].status) { ClosingFreesHousehold(db, c.id, r); }
    assert Apply(db, c).requests[c.id] == r;
  }

  // ---------- Giving a request back ----------

  /** The request is on offer again: without collector or escrow, its household still waiting, and free for any
      approved collector. */
  ghost predicate BackOnOffer(before: Db, after: Db, id: RequestId) {
    && id in before.requests && id in after.requests && OthersStay(before, after, id) && after.bids == before.bids
    && after.requests[id].status == PENDING && after.requests[id].collector == None
    && EscrowReleased(before, after, id)
    && HouseholdIsBusy(after, before.requests[id].household)
    && forall u: User :: Admits(after, Accept(id, u, true, 0, 0, 0))
  }

  lemma GivingBackCall(db: Db, c: Call)
    requires RowsSound(db) && Admits(db, c) && (c.Abandon? || c.InactivityTimeout?)
    ensures BackOnOffer(db, Apply(db, c), c.id)
  {
    var r := Row(c, Before(db, c), db.bids);
    OneRowCall(db, c);
    ReleasingCall(db, c);
    assert Apply(db, c).requests[c.id] == r && r.status == PENDING && r.center.Some?;
  }

  /** Accepting locks exactly the required amount of the collector's own escrow. */
  lemma AcceptingCall(db: Db, c: Call)
    requires RowsSound(db) && Admits(db, c) && c.Accept?
    ensures InEscrow(Apply(db, c), c.collector) == InEscrow(db, c.collector) + c.required
  {
    EscrowAccounting(db, c, c.collector);
  }

  // ---------- On the way ----------

  /** The collector is on the way or there: nobody's escrow moved, the request can be verified, but no longer be
      abandoned or taken back for inactivity. */
  ghost predicate OnTheWay(before: Db, after: Db, id: RequestId, to: Status) {
    && id in before.requests && id in after.requests && OthersStay(before, after, id) && after.bids == before.bids
    && after.requests[id].status == to && after.requests[id].collector == before.requests[id].collector
    && EscrowStays(before, after) && PastTurningBack(after, id)
  }

  ghost predicate PastTurningBack(db: Db, id: RequestId) {
    && (forall batch :: Admits(db, CompleteIfActive(id, batch)))
    && (forall u: User :: !Admits(db, Abandon(id, u))) && !Admits(db, InactivityTimeout(id))
  }

  lemma TravellersArePastTurningBack(db: Db, id: RequestId)
    requires id in db.requests && (db.requests[id].status == EN_ROUTE || db.requests[id].status == ARRIVED)
    ensures PastTurningBack(db, id)
  {
  }

  lemma TravellersKeepEscrow(db: Db, c: Call)
    requires RowsSound(db) && Admits(db, c) && (c.StartRoute? || c.ReachDestination?)
    ensures EscrowStays(db, Apply(db, c))
  {
    EscrowUnmoved(db, c);
  }

  lemma TravelledRow(db: Db, c: Call)
    requires Admits(db, c) && (c.StartRoute? || c.ReachDestination?)
    ensures var r := Row(c, Before(db, c), db.bids);
      && r.status == (if c.StartRoute? then EN_ROUTE else ARRIVED)
      && r.collector == db.requests[c.id].collector == Some(c.collector)
      && Row(c, r, db.bids) == r
  {
  }

  /** The call is accepted again and changes nothing. */
  ghost predicate Repeatable(db: Db, c: Call) { Admits(db, c) && Apply(db, c) == db }

  /** Saying it twice is like saying it once. */
  lemma TravellingTwice(db: Db, c: Call)
    requires Admits(db, c) && (c.StartRoute? || c.ReachDestination?)
    ensures Repeatable(Apply(db, c), c)
  {
    var after := Apply(db, c);
    TravelledRow(db, c);
    assert after.requests[c.id] == Row(c, Before(db, c), db.bids);
    OneRowCall(after, c);
    assert after.requests[c.id := after.requests[c.id]] == after.requests;
  }

  /** For a collector already on the way, or already there, the call changes nothing. */
  lemma AlreadyThere(db: Db, c: Call)
    requires c.id in db.requests && (c.StartRoute? || c.ReachDestination?)
    requires db.requests[c.id].collector == Some(c.collector)
    requires db.requests[c.id].status == if c.StartRoute? then EN_ROUTE else ARRIVED
    ensures Repeatable(db, c)
  {
    assert db.requests[c.id := db.requests[c.id]] == db.requests;
  }

  lemma TravellingCall(db: Db, c: Call)
    requires RowsSound(db) && Admits(db, c) && (c.StartRoute? || c.ReachDestination?)
    ensures OnTheWay(db, Apply(db, c), c.id, if c.StartRoute? then EN_ROUTE else ARRIVED)
    ensures Repeatable(Apply(db, c), c)
  {
    OneRowCall(db, c);
    TravelledRow(db, c);
    TravellersKeepEscrow(db, c);
    assert Apply(db, c).requests[c.id] == Row(c, Before(db, c), db.bids);
    TravellersArePastTurningBack(Apply(db, c), c.id);
    TravellingTwice(db, c);
  }

  // ---------- Creating and editing ----------

  /** A new request without bids or escrow, whose household can create no other. */
  ghost predicate Opened(before: Db, after: Db, id: RequestId, household: User) {
    && id !in before.requests && id in after.requests && OthersStay(before, after, id) && after.bids == before.bids
    && after.requests[id].household == household && Open(after.requests[id].status)
    && EscrowStays(before, after)
    && (forall b :: b in after.bids ==> after.bids[b].request != id)
    && forall j, mode, items, valid :: !Admits(after, Create(j, household, mode, items, valid))
  }

  lemma OpeningCall(db: Db, c: Call)
    requires RowsSound(db) && BidsHaveRequests(db) && Admits(db, c) && c.Create?
    ensures Opened(db, Apply(db, c), c.id, c.household)
  {
    var after := Apply(db, c);
    EscrowUnmoved(db, c);
    assert after.requests[c.id].household == c.household && !IsTerminal(after.requests[c.id].status);
    assert HouseholdIsBusy(after, c.household);
  }

  /** Whether a call is admitted does not depend on the items of a request. */
  ghost predicate SameAdmissions(before: Db, after: Db) { forall c :: Admits(after, c) <==> Admits(before, c) }

  lemma EditKeepsHouseholds(db: Db, id: RequestId, items: Rates, household: User)
    requires id in db.requests
    ensures HouseholdIsBusy(db.(requests := db.requests[id := db.requests[id].(items := items)]), household)
       <==> HouseholdIsBusy(db, household)
  {
    var after := db.(requests := db.requests[id := db.requests[id].(items := items)]);
    assert forall j :: j in db.requests ==>
      after.requests[j].household == db.requests[j].household && after.requests[j].status == db.requests[j].status;
  }

  lemma EditKeepsHeld(db: Db, id: RequestId, items: Rates, u: User)
    requires id in db.requests
    ensures Held(db.(requests := db.requests[id := db.requests[id].(items := items)]), u) == Held(db, u)
  {
  }

  lemma EditKeepsAdmission(db: Db, id: RequestId, items: Rates, c: Call)
    requires id in db.requests
    ensures Admits(db.(requests := db.requests[id := db.requests[id].(items := items)]), c) <==> Admits(db, c)
  {
    if c.Create? {
      EditKeepsHouseholds(db, id, items, c.household);
    } else if c.Accept? {
      EditKeepsHeld(db, id, items, c.collector);
    } else if c.ExpireAuction? {
      var after := db.(requests := db.requests[id := db.requests[id].(items := items)]);
      assert HasChosenBid(after, c.id) == HasChosenBid(db, c.id);
    }
  }

  lemma EditingCall(db: Db, e: Call)
    requires Admits(db, e) && e.Edit?
    ensures SameAdmissions(db, Apply(db, e)) && EscrowStays(db, Apply(db, e))
    ensures Apply(db, e).bids == db.bids && OthersStay(db, Apply(db, e), e.id)
    ensures e.id in db.requests && Apply(db, e).requests[e.id].items == e.items
  {
    OneRowCall(db, e);
    var after := db.(requests := db.requests[e.id := db.requests[e.id].(items := e.items)]);
    assert Apply(db, e) == after;
    forall u: User ensures InEscrow(after, u) == InEscrow(db, u) { EditKeepsHeld(db, e.id, e.items, u); }
    forall c ensures Admits(after, c) <==> Admits(db, c) { EditKeepsAdmission(db, e.id, e.items, c); }
  }

  // ---------- Taking and expiring ----------

  /** The request belongs to the center: no other can take it, and any approved collector may accept it. */
  ghost predicate TakenBy(before: Db, after: Db, id: RequestId, center: User) {
    && id in before.requests && id in after.requests && OthersStay(before, after, id) && after.bids == before.bids
    && after.requests[id].center == Some(center) && after.requests[id].status == PENDING
    && EscrowStays(before, after)
    && (forall other, priceList :: !Admits(after, ClaimAutomatic(id, other, priceList)))
    && forall u: User :: Admits(after, Accept(id, u, true, 0, 0, 0))
  }

  lemma TakingCall(db: Db, c: Call)
    requires RowsSound(db) && Admits(db, c) && c.ClaimAutomatic?
    ensures TakenBy(db, Apply(db, c), c.id, c.center)
  {
    OneRowCall(db, c);
    EscrowUnmoved(db, c);
  }

  /** The auction is over: no bid can be chosen or placed any more. */
  ghost predicate AuctionOver(before: Db, after: Db, id: RequestId) {
    && id in before.requests && id in after.requests && OthersStay(before, after, id)
    && after.requests[id].status == PENDING && after.requests[id].mode == AUTOMATIC
    && (forall b :: b in before.bids && before.bids[b].request != id ==>
          b in after.bids && after.bids[b] == before.bids[b])
    && (forall household, b :: !Admits(after, SelectBid(id, household, b)))
    && (forall center, rates, late, found, b :: !Admits(after, SubmitBid(id, center, rates, late, found, b)))
  }

  lemma ExpiringCall(db: Db, c: Call)
    requires Admits(db, c) && c.ExpireAuction?
    ensures AuctionOver(db, Apply(db, c), c.id)
  {
  }

  /** The request left the auction but its pending bids did not: the household may still choose each of them, which
      none of the centers can do anything about by bidding again. */
  ghost predicate BidsLeftOver(before: Db, after: Db, id: RequestId) {
    && id in before.requests && id in after.requests && OthersStay(before, after, id) && after.bids == before.bids
    && after.requests[id].status == PENDING && after.requests[id].mode == AUTOMATIC
    && (forall b :: b in after.bids && after.bids[b].request == id && after.bids[b].status == OFFERED ==>
          Admits(after, SelectBid(id, after.requests[id].household, b)))
    && (forall center, rates, late, found, b :: !Admits(after, SubmitBid(id, center, rates, late, found, b)))
  }

  lemma RowOnlyExpiringCall(db: Db, c: Call)
    requires Admits(db, c) && c.ExpireAuctionRowOnly?
    ensures BidsLeftOver(db, Apply(db, c), c.id)
  {
  }
}
