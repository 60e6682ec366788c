/** Who may make which call when, which call writes which field, and what becomes of each bid. */
module CollectionRules {
  import opened CollectionEffects
  import opened Collections
  import opened CollectionRuns
  import opened Sums
  import opened Wrappers

  // ---------- Admission ----------

  predicate ByCollector(c: Call) {
    c.CancelByCollector? || c.Abandon? || c.StartRoute? || c.ReachDestination? || c.ReportNoShow? || c.RejectOnSite?
  }

  predicate ByHousehold(c: Call) { c.CancelByHousehold? || c.Edit? || c.SelectBid? }

  /** A collector acts on the requests assigned to it, a household on its own. */
  predicate ByItsOwn(c: Call, r: Request) {
    && (ByCollector(c) ==> r.collector == Some(c.collector))
    && (ByHousehold(c) ==> r.household == c.household)
  }

  /** The statuses in which a call is possible at all; taking back a bid and a collector's cancel are in any. */
  predicate InItsStatus(c: Call, s: Status) {
    && (c.SubmitBid? || c.SelectBid? ==> s in {PENDING, AUCTION_ACTIVE})
    && (c.ClaimAutomatic? || c.Edit? || c.PendingTimeout? ==> s == PENDING)
    && (c.ExpireAuction? || c.ExpireAuctionRowOnly? ==> s == AUCTION_ACTIVE)
    && (c.Accept? ==> s in {PENDING, AUCTION_ASSIGNED})
    && (c.CancelByHousehold? ==> s in {PENDING, AUCTION_ACTIVE, AUCTION_ASSIGNED})
    && (c.Abandon? || c.InactivityTimeout? ==> s == ACCEPTED)
    && (c.StartRoute? ==> s in {ACCEPTED, EN_ROUTE})
    && (c.ReachDestination? ==> s in {EN_ROUTE, ARRIVED})
    && (c.ReportNoShow? || c.RejectOnSite? || c.ArrivedTimeout? ==> s == ARRIVED)
    && (c.CompleteIfActive? ==> s in {ACCEPTED, EN_ROUTE, ARRIVED})
  }

  /** Solvency: the chain decides while it reports anything, the deposits when it reports nothing. */
  ghost predicate Covers(db: Db, u: User, required: nat, chainBalance: nat, deposits: nat) {
    || required == 0
    || (chainBalance > 0 && required + InEscrow(db, u) <= chainBalance)
    || (chainBalance == 0 && required + InEscrow(db, u) <= deposits)
  }

  /** What the answers of the outside world, the mode, the bids and the balances must be. */
  ghost predicate Otherwise(db: Db, c: Call, r: Request) {
    && (c.SubmitBid? ==> r.mode == AUCTION && !c.expired && c.rates != map[])
    && (c.SubmitBid? || c.WithdrawBid? ==> FindFirst(db.bids, c.id, c.center, c.found))
    && (c.SubmitBid? && c.found == None ==> c.newBid !in db.bids)
    && (c.WithdrawBid? ==> c.found.Some? && c.found.value in db.bids && db.bids[c.found.value].status == OFFERED)
    && (c.SelectBid? ==> c.bid in db.bids && db.bids[c.bid].request == c.id && db.bids[c.bid].status == OFFERED)
    && (c.ClaimAutomatic? ==> r.mode == AUTOMATIC && r.center == None && c.priceList != map[])
    && (c.ExpireAuction? ==> forall b :: b in db.bids && db.bids[b].request == c.id ==> db.bids[b].status != CHOSEN)
    && (c.Accept? ==> c.kyc && r.center != None && Covers(db, c.collector, c.required, c.chainBalance, c.deposits))
    && (c.ReportNoShow? ==> c.waited)
    && (c.RejectOnSite? ==> c.valid)
    && (c.InactivityTimeout? ==> !r.onRoute)
  }

  /** A call on a request is admitted exactly for the right party, in the right status, under the right conditions. */
  lemma AdmittedIff(db: Db, c: Call)
    requires !c.Create?
    ensures Admits(db, c) <==>
      && c.id in db.requests
      && ByItsOwn(c, db.requests[c.id]) && InItsStatus(c, db.requests[c.id].status)
      && Otherwise(db, c, db.requests[c.id])
  {
    if c.WithdrawBid? && c.id in db.requests && c.found.Some? {
      assert AdmitsRow(db, c, db.requests[c.id]) <==>
        FindFirst(db.bids, c.id, c.center, c.found) && db.bids[c.found.value].status == OFFERED;
    }
  }

  /** A request is created under a new id, with valid input, for a household all of whose other requests are over. */
  lemma CreationAdmittedIff(db: Db, c: Call)
    requires c.Create?
    ensures Admits(db, c) <==>
      && c.valid && c.id !in db.requests
      && forall i :: i in db.requests && db.requests[i].household == c.household ==>
           db.requests[i].status in {COMPLETED, CANCELLED, UNATTENDED, REJECTED_ON_SITE}
  {
  }

  // ---------- Fields ----------

  /** Each field of a request has its writers, and they write what they were given; all other calls leave it alone. */
  ghost predicate FieldsWritten(db: Db, c: Call, r: Request, a: Request) {
    && a.household == r.household
    && a.items == (if c.Edit? then c.items else r.items)
    && a.mode == (if c.ExpireAuction? || c.ExpireAuctionRowOnly? then AUTOMATIC else r.mode)
    && a.center == (if c.ClaimAutomatic? then Some(c.center)
                    else if c.SelectBid? && c.bid in db.bids then Some(db.bids[c.bid].center) else r.center)
    && a.agreedRates == (if c.ClaimAutomatic? then Some(c.priceList)
                         else if c.SelectBid? && c.bid in db.bids then Some(db.bids[c.bid].rates) else r.agreedRates)
    && a.collector == (if c.Accept? then Some(c.collector)
                       else if c.Abandon? || c.InactivityTimeout? then None else r.collector)
    && a.batch == (if c.CompleteIfActive? then c.batch else if c.Abandon? then None else r.batch)
    && a.onRoute == ((c.StartRoute? && r.status == ACCEPTED) || r.onRoute)
  }

  /** The status a call leads to. */
  function NewStatus(c: Call, s: Status): Status {
    if c.SelectBid? then AUCTION_ASSIGNED
    else if c.Accept? then ACCEPTED
    else if c.StartRoute? then EN_ROUTE
    else if c.ReachDestination? then ARRIVED
    else if c.CompleteIfActive? then COMPLETED
    else if c.CancelByCollector? || c.CancelByHousehold? || c.PendingTimeout? then CANCELLED
    else if c.ReportNoShow? || c.ArrivedTimeout? then UNATTENDED
    else if c.RejectOnSite? then REJECTED_ON_SITE
    else if c.Abandon? || c.InactivityTimeout? || c.ExpireAuction? || c.ExpireAuctionRowOnly? then PENDING
    else s
  }

  lemma FieldsAreWritten(db: Db, c: Call, r: Request)
    requires AdmitsRow(db, c, r)
    ensures FieldsWritten(db, c, r, Row(c, r, db.bids))
  {
  }

  lemma StatusIsWritten(db: Db, c: Call, r: Request)
    requires AdmitsRow(db, c, r)
    ensures Row(c, r, db.bids).status == NewStatus(c, r.status)
  {
  }

  lemma RowIsWritten(db: Db, c: Call)
    requires Admits(db, c) && !c.Create?
    ensures var r, a := db.requests[c.id], Apply(db, c).requests[c.id];
      FieldsWritten(db, c, r, a) && a.status == NewStatus(c, r.status)
    ensures OthersStay(db, Apply(db, c), c.id)
  {
    FieldsAreWritten(db, c, db.requests[c.id]);
    StatusIsWritten(db, c, db.requests[c.id]);
    assert Apply(db, c).requests[c.id] == Row(c, db.requests[c.id], db.bids);
  }

  /** A new request: with an auction running if that is its mode, otherwise waiting; nothing agreed, nobody assigned. */
  lemma CreatedIs(db: Db, c: Call)
    requires Admits(db, c) && c.Create?
    ensures c.id in Apply(db, c).requests
    ensures var a := Apply(db, c).requests[c.id];
      && a.household == c.household && a.items == c.items && a.mode == c.mode
      && a.status == (if c.mode == AUCTION then AUCTION_ACTIVE else PENDING)
      && a.collector == None && a.center == None && a.agreedRates == None && a.batch == None
      && a.escrow == 0 && !a.onRoute
  {
  }

  // ---------- Bids ----------

  /** The status of a stored bid after a call. */
  function BidStatusAfter(c: Call, b: BidId, bid: Bid): BidStatus {
    if c.SubmitBid? && bid.request == c.id && bid.center == c.center then OFFERED
    else if c.WithdrawBid? && bid.request == c.id && bid.center == c.center then WITHDRAWN
    else if c.SelectBid? && b == c.bid then CHOSEN
    else if c.SelectBid? && bid.request == c.id then REJECTED
    else if c.ExpireAuction? && bid.request == c.id && bid.status == OFFERED then EXPIRED
    else bid.status
  }

  /** Every stored bid keeps its request and center; its rates change only when its center bids again. */
  lemma BidIsWritten(db: Db, c: Call, b: BidId)
    requires OneBidPerCenter(db) && Admits(db, c) && b in db.bids
    ensures b in Apply(db, c).bids && SameBidder(Apply(db, c).bids[b], db.bids[b])
    ensures Apply(db, c).bids[b].status == BidStatusAfter(c, b, db.bids[b])
    ensures Apply(db, c).bids[b].rates == if c.SubmitBid? && db.bids[b].request == c.id && db.bids[b].center == c.center
                                          then c.rates else db.bids[b].rates
  {
    if c.SubmitBid? || c.WithdrawBid? {
      if c.found.Some? { assert SameBidder(db.bids[c.found.value], Bid(c.id, c.center, map[], OFFERED)); }
      assert c.found.Some? && SameBidder(db.bids[b], db.bids[c.found.value]) ==> b == c.found.value;
    }
  }

  /** Only a submission adds a bid, and only for a center that had none. */
  lemma NewBidIs(db: Db, c: Call, b: BidId)
    requires Admits(db, c) && b in Apply(db, c).bids && b !in db.bids
    ensures c.SubmitBid? && b == c.newBid && Apply(db, c).bids[b] == Bid(c.id, c.center, c.rates, OFFERED)
    ensures forall d :: d in db.bids ==> !(db.bids[d].request == c.id && db.bids[d].center == c.center)
  {
  }

  /** After bidding, a center's bid can be selected; after withdrawing, no bid of that center can; after a selection, no
      bid of the request can, the winner included. */
  lemma SelectableBids(db: Db, c: Call, household: User, b: BidId)
    requires OneBidPerCenter(db) && Admits(db, c) && b in Apply(db, c).bids && Apply(db, c).bids[b].request == c.id
    ensures c.SubmitBid? && Apply(db, c).bids[b].center == c.center && household == db.requests[c.id].household
      ==> Admits(Apply(db, c), SelectBid(c.id, household, b))
    ensures c.WithdrawBid? && Apply(db, c).bids[b].center == c.center
      ==> !Admits(Apply(db, c), SelectBid(c.id, household, b))
    ensures c.SelectBid? ==> !Admits(Apply(db, c), SelectBid(c.id, household, b))
  {
    if b in db.bids { BidIsWritten(db, c, b); }
  }

  // ---------- Acceptance by cases ----------

  /** With anything on the chain the deposits are not looked at; with nothing there they decide. */
  lemma SolvencyByCases(db: Db, c: Call)
    requires c.Accept? && c.required > 0 && c.id in db.requests && c.kyc && db.requests[c.id].center.Some?
    requires db.requests[c.id].status == PENDING || db.requests[c.id].status == AUCTION_ASSIGNED
    ensures c.chainBalance > 0 ==> (Admits(db, c) <==> c.required + InEscrow(db, c.collector) <= c.chainBalance)
    ensures c.chainBalance == 0 ==> (Admits(db, c) <==> c.required + InEscrow(db, c.collector) <= c.deposits)
  {
  }

  // ---------- What is held ----------

  /** A collector's escrow is held exactly on the requests it is serving. */
  lemma HeldIs(r: Request, u: User)
    ensures HeldBy(r, u)
         == if r.collector == Some(u) && r.status in {ACCEPTED, EN_ROUTE, ARRIVED} then r.escrow else 0
  {
  }
}
