/** What every run of collection calls keeps: the request lifecycle, auction
    consistency, and solvency of the collectors' escrow. */
module CollectionRuns {
  import opened Wrappers
  import opened Sums
  import opened Collections

  // ---------- Lifecycle ----------

  /** Requests being served have a collector and a center; open ones have no collector and nothing in escrow. */
  predicate RowSound(r: Request) {
    && (CanVerifyPin(r.status) ==> r.collector.Some? && r.center.Some?)
    && (Open(r.status) ==> r.collector.None? && r.escrow == 0)
    && (r.status == AUCTION_ASSIGNED ==> r.center.Some?)
    && (r.status == AUCTION_ACTIVE ==> r.mode == AUCTION)
  }

  ghost predicate RowsSound(db: Db) { forall id :: id in db.requests ==> RowSound(db.requests[id]) }

  ghost predicate OneActivePerHousehold(db: Db) {
    forall i, j :: i in db.requests && j in db.requests && i != j
      && !IsTerminal(db.requests[i].status) && !IsTerminal(db.requests[j].status)
      ==> db.requests[i].household != db.requests[j].household
  }

  /** The row a call writes is sound. */
  lemma RowStaysSound(db: Db, c: Call)
    requires RowsSound(db) && Admits(db, c)
    ensures RowSound(Row(c, Before(db, c), db.bids))
    ensures !c.Create? ==> Row(c, Before(db, c), db.bids).household == Before(db, c).household
  {
  }

  /** No call takes a request out of the terminal statuses. */
  lemma TerminalIsClosed(db: Db, c: Call, id: RequestId)
    requires RowsSound(db) && id in db.requests && IsTerminal(db.requests[id].status)
    ensures id in Apply(db, c).requests && IsTerminal(Apply(db, c).requests[id].status)
  {
  }

  lemma ApplyKeepsLifecycle(db: Db, c: Call)
    requires RowsSound(db) && OneActivePerHousehold(db)
    ensures RowsSound(Apply(db, c)) && OneActivePerHousehold(Apply(db, c))
  {
    if Admits(db, c) {
      var after := Apply(db, c);
      RowStaysSound(db, c);
      forall i, j | i in after.requests && j in after.requests && i != j
        && !IsTerminal(after.requests[i].status) && !IsTerminal(after.requests[j].status)
        ensures after.requests[i].household != after.requests[j].household
      {
        var other := if i == c.id then j else i;
        assert after.requests[other] == db.requests[other];
        if !c.Create? && c.id in db.requests {
          if IsTerminal(db.requests[c.id].status) {
            TerminalIsClosed(db, c, c.id);
          }
        }
      }
    }
  }

  /** In every run: served requests have collector and center, open ones neither collector nor escrow,
      and a household has at most one request that is not over. */
  lemma {:induction false} LifecycleInvariant(calls: seq<Call>)
    ensures RowsSound(Exec(calls)) && OneActivePerHousehold(Exec(calls))
  {
    if calls != [] {
      LifecycleInvariant(calls[..|calls| - 1]);
      ApplyKeepsLifecycle(Exec(calls[..|calls| - 1]), calls[|calls| - 1]);
    }
  }

  /** Once terminal, terminal for the rest of the run. */
  lemma {:induction false} TerminalForever(calls: seq<Call>, i: nat, id: RequestId)
    requires i <= |calls|
    requires id in Exec(calls[..i]).requests && IsTerminal(Exec(calls[..i]).requests[id].status)
    ensures id in Exec(calls).requests && IsTerminal(Exec(calls).requests[id].status)
    decreases |calls|
  {
    if i == |calls| {
      assert calls[..i] == calls;
    } else {
      var front := calls[..|calls| - 1];
      assert front[..i] == calls[..i];
      TerminalForever(front, i, id);
      LifecycleInvariant(front);
      TerminalIsClosed(Exec(front), calls[|calls| - 1], id);
    }
  }

  /** A terminal request can still change its terminal status, and only by its collector cancelling it. */
  lemma TerminalStatusChangesOnlyByCollectorCancel(db: Db, c: Call, id: RequestId)
    requires RowsSound(db) && id in db.requests && IsTerminal(db.requests[id].status)
    ensures Apply(db, c).requests[id].status != db.requests[id].status
       <==> c.CancelByCollector? && c.id == id && db.requests[id].collector == Some(c.collector)
            && db.requests[id].status != CANCELLED
  {
  }

  /** The documented transition table, which the services do not consult. */
  predicate InTable(from: Status, to: Status) {
    match from
    case PENDING => to.ACCEPTED? || to.CANCELLED? || to.UNATTENDED?
    case AUCTION_ACTIVE => to.AUCTION_ASSIGNED? || to.UNATTENDED? || to.CANCELLED?
    case AUCTION_ASSIGNED => to.ACCEPTED? || to.CANCELLED? || to.UNATTENDED?
    case ACCEPTED => to.EN_ROUTE? || to.PENDING? || to.CANCELLED? || to.REJECTED_ON_SITE? || to.COMPLETED?
    case EN_ROUTE => to.ARRIVED? || to.PENDING? || to.REJECTED_ON_SITE? || to.COMPLETED?
    case ARRIVED => to.COMPLETED? || to.REJECTED_ON_SITE? || to.CANCELLED?
    case _ => false
  }

  /** The admitted calls that leave the table: expiring an auction, selecting a bid after it went back to PENDING,
      closing an arrived request as unattended, and a collector cancelling on the way or after the end. */
  lemma LeavesTableIff(db: Db, c: Call)
    requires RowsSound(db) && Admits(db, c) && !c.Create?
    ensures var from, to := db.requests[c.id].status, Apply(db, c).requests[c.id].status;
      from != to && !InTable(from, to)
      <==> || c.ExpireAuction? || c.ExpireAuctionRowOnly? || c.ReportNoShow? || c.ArrivedTimeout?
           || (c.SelectBid? && from == PENDING)
           || (c.CancelByCollector? && (from == EN_ROUTE || (IsTerminal(from) && from != CANCELLED)))
  {
    var r := db.requests[c.id];
    assert Apply(db, c).requests[c.id] == Row(c, r, db.bids);
    assert RowSound(r) && AdmitsRow(db, c, r);
  }

  lemma ExecAppend(calls: seq<Call>, c: Call)
    ensures Exec(calls + [c]) == Apply(Exec(calls), c)
  {
    assert (calls + [c])[..|calls|] == calls;
  }

  lemma CreatedRow(id: RequestId, household: User, items: Rates)
    ensures Apply(EMPTY_DB, Create(id, household, AUTOMATIC, items, true))
         == Db(map[id := Request(household, PENDING, AUTOMATIC, items, None, None, None, 0, None, false)], map[])
  {
  }

  lemma ClaimedRow(db: Db, id: RequestId, household: User, center: User, items: Rates)
    requires items != map[]
    requires db.requests == map[id := Request(household, PENDING, AUTOMATIC, items, None, None, None, 0, None, false)]
    ensures Apply(db, ClaimAutomatic(id, center, items)) == Db(map[id :=
              Request(household, PENDING, AUTOMATIC, items, None, Some(center), Some(items), 0, None, false)], db.bids)
  {
  }

  lemma AcceptedRow(db: Db, id: RequestId, household: User, center: User, collector: User, items: Rates)
    requires db.requests == map[id :=
      Request(household, PENDING, AUTOMATIC, items, None, Some(center), Some(items), 0, None, false)]
    ensures Apply(db, Accept(id, collector, true, 0, 0, 0)) == Db(map[id :=
              Request(household, ACCEPTED, AUTOMATIC, items, Some(collector), Some(center), Some(items), 0, None,
                      false)], db.bids)
  {
  }

  /** A household's request, taken by a center and accepted by a collector. */
  function AcceptedRun(id: RequestId, household: User, center: User, collector: User): seq<Call> {
    [Create(id, household, AUTOMATIC, map["PET" := 100], true), ClaimAutomatic(id, center, map["PET" := 100]),
     Accept(id, collector, true, 0, 0, 0)]
  }

  lemma AcceptedRunRow(id: RequestId, household: User, center: User, collector: User)
    ensures Exec(AcceptedRun(id, household, center, collector)) == Db(map[id :=
              Request(household, ACCEPTED, AUTOMATIC, map["PET" := 100], Some(collector), Some(center),
                      Some(map["PET" := 100]), 0, None, false)], map[])
  {
    var items := map["PET" := 100];
    assert "PET" in items;
    var a, b, c := Create(id, household, AUTOMATIC, items, true), ClaimAutomatic(id, center, items),
      Accept(id, collector, true, 0, 0, 0);
    ExecAppend([], a);
    ExecAppend([a], b);
    ExecAppend([a, b], c);
    assert [] + [a] == [a] && [a] + [b] == [a, b] && [a, b] + [c] == [a, b, c];
    CreatedRow(id, household, items);
    ClaimedRow(Exec([a]), id, household, center, items);
    AcceptedRow(Exec([a, b]), id, household, center, collector, items);
  }

  /** A completed request whose collector cancels it afterwards is CANCELLED, which no row of the table allows. */
  lemma CompletedRequestIsCancelled(id: RequestId, household: User, center: User, collector: User)
    ensures var calls := AcceptedRun(id, household, center, collector) + [CompleteIfActive(id, None)];
      var after := Exec(calls + [CancelByCollector(id, collector)]);
      && id in Exec(calls).requests && Exec(calls).requests[id].status == COMPLETED
      && id in after.requests && after.requests[id].status == CANCELLED && !InTable(COMPLETED, CANCELLED)
  {
    var run := AcceptedRun(id, household, center, collector);
    AcceptedRunRow(id, household, center, collector);
    ExecAppend(run, CompleteIfActive(id, None));
    ExecAppend(run + [CompleteIfActive(id, None)], CancelByCollector(id, collector));
  }

  // ---------- Auctions ----------

  predicate SameBidder(a: Bid, b: Bid) { a.request == b.request && a.center == b.center }

  predicate BothWin(a: Bid, b: Bid) { a.request == b.request && a.status == CHOSEN && b.status == CHOSEN }

  ghost predicate OneBidPerCenter(db: Db) {
    forall a, b :: a in db.bids && b in db.bids && SameBidder(db.bids[a], db.bids[b]) ==> a == b
  }

  ghost predicate OneChosenBid(db: Db) {
    forall a, b :: a in db.bids && b in db.bids && BothWin(db.bids[a], db.bids[b]) ==> a == b
  }

  /** The chosen bid is what its request says was agreed, and its request is not in a running auction. */
  ghost predicate ChosenIsAgreed(db: Db) {
    forall b :: b in db.bids && db.bids[b].status == CHOSEN ==>
      && db.bids[b].request in db.requests
      && var r := db.requests[db.bids[b].request];
         r.center == Some(db.bids[b].center) && r.agreedRates == Some(db.bids[b].rates) && r.status != AUCTION_ACTIVE
  }

  ghost predicate AssignedHasChosen(db: Db) {
    forall id :: id in db.requests && db.requests[id].status == AUCTION_ASSIGNED ==> HasChosenBid(db, id)
  }

  ghost predicate BidsHaveRequests(db: Db) {
    forall b :: b in db.bids ==> db.bids[b].request in db.requests
  }

  ghost predicate AuctionSound(db: Db) {
    BidsHaveRequests(db) && OneBidPerCenter(db) && OneChosenBid(db) && ChosenIsAgreed(db) && AssignedHasChosen(db)
  }

  /** Calls that leave the bid table alone. */
  predicate LeavesBids(c: Call) { !c.SubmitBid? && !c.WithdrawBid? && !c.SelectBid? && !c.ExpireAuction? }

  lemma RowCallsKeepAuctions(db: Db, c: Call)
    requires AuctionSound(db) && Admits(db, c) && LeavesBids(c)
    ensures AuctionSound(Apply(db, c))
  {
    var after := Apply(db, c);
    forall id | id in after.requests && after.requests[id].status == AUCTION_ASSIGNED
      ensures HasChosenBid(after, id)
    {
      assert id in db.requests && db.requests[id].status == AUCTION_ASSIGNED;
      assert HasChosenBid(db, id);
    }
    forall b | b in after.bids && after.bids[b].status == CHOSEN
      ensures var r := after.requests[after.bids[b].request];
        && r.center == Some(after.bids[b].center) && r.agreedRates == Some(after.bids[b].rates)
        && r.status != AUCTION_ACTIVE
    {
      assert b in db.bids && db.bids[b].status == CHOSEN;
    }
  }

  /** A submission writes one bid, which is its center's only one and is not chosen. */
  lemma SubmittedBid(db: Db, c: Call) returns (n: BidId)
    requires OneBidPerCenter(db) && Admits(db, c) && c.SubmitBid?
    ensures Apply(db, c).bids == db.bids[n := Bid(c.id, c.center, c.rates, OFFERED)]
    ensures forall b :: b in db.bids && SameBidder(db.bids[b], Bid(c.id, c.center, c.rates, OFFERED)) ==> b == n
    ensures Apply(db, c).requests == db.requests && c.id in db.requests
    ensures db.requests[c.id].status != AUCTION_ASSIGNED
  {
    n := if c.found.Some? then c.found.value else c.newBid;
    assert db.requests[c.id := db.requests[c.id]] == db.requests;
    assert n in db.bids ==> SameBidder(db.bids[n], Bid(c.id, c.center, c.rates, OFFERED));
  }

  /** A request assigned by auction keeps its chosen bid when bids are placed, taken back or expired. */
  lemma AssignedStaysChosen(db: Db, c: Call)
    requires AuctionSound(db) && Admits(db, c) && (c.SubmitBid? || c.WithdrawBid? || c.ExpireAuction?)
    ensures AssignedHasChosen(Apply(db, c))
  {
    var after := Apply(db, c);
    forall id | id in after.requests && after.requests[id].status == AUCTION_ASSIGNED
      ensures HasChosenBid(after, id)
    {
      var b :| b in db.bids && db.bids[b].request == id && db.bids[b].status == CHOSEN;
      assert after.bids[b] == db.bids[b];
    }
  }

  lemma SubmitKeepsAuctions(db: Db, c: Call)
    requires AuctionSound(db) && Admits(db, c) && c.SubmitBid?
    ensures AuctionSound(Apply(db, c))
  {
    var after := Apply(db, c);
    var n := SubmittedBid(db, c);
    AssignedStaysChosen(db, c);
    forall a, b | a in after.bids && b in after.bids && SameBidder(after.bids[a], after.bids[b])
      ensures a == b
    {
      assert a in db.bids && b in db.bids && SameBidder(db.bids[a], db.bids[b]) ==> a == b;
    }
  }

  lemma WithdrawKeepsAuctions(db: Db, c: Call)
    requires AuctionSound(db) && Admits(db, c) && c.WithdrawBid?
    ensures AuctionSound(Apply(db, c))
  {
    AssignedStaysChosen(db, c);
  }

  /** Selecting a bid leaves it the only chosen one of its request, and other requests' bids as they were. */
  lemma SelectedBids(db: Db, c: Call, b: BidId)
    requires AuctionSound(db) && Admits(db, c) && c.SelectBid? && b in Apply(db, c).bids
    ensures b in db.bids && SameBidder(Apply(db, c).bids[b], db.bids[b])
    ensures db.bids[b].request != c.id ==> Apply(db, c).bids[b] == db.bids[b]
    ensures db.bids[b].request == c.id ==> (Apply(db, c).bids[b].status == CHOSEN <==> b == c.bid)
    ensures Apply(db, c).bids[b].rates == db.bids[b].rates
  {
  }

  lemma SelectKeepsChosen(db: Db, c: Call)
    requires AuctionSound(db) && Admits(db, c) && c.SelectBid?
    ensures OneBidPerCenter(Apply(db, c)) && OneChosenBid(Apply(db, c)) && ChosenIsAgreed(Apply(db, c))
  {
    var after := Apply(db, c);
    forall a, b | a in after.bids && b in after.bids && SameBidder(after.bids[a], after.bids[b]) ensures a == b {
      SelectedBids(db, c, a);
      SelectedBids(db, c, b);
    }
    forall a, b | a in after.bids && b in after.bids && BothWin(after.bids[a], after.bids[b]) ensures a == b {
      SelectedBids(db, c, a);
      SelectedBids(db, c, b);
    }
    forall b | b in after.bids && after.bids[b].status == CHOSEN
      ensures after.bids[b].request in after.requests
      ensures var r := after.requests[after.bids[b].request];
        && r.center == Some(after.bids[b].center) && r.agreedRates == Some(after.bids[b].rates)
        && r.status != AUCTION_ACTIVE
    {
      SelectedBids(db, c, b);
    }
  }

  lemma SelectKeepsAuctions(db: Db, c: Call)
    requires AuctionSound(db) && Admits(db, c) && c.SelectBid?
    ensures AuctionSound(Apply(db, c))
  {
    var after := Apply(db, c);
    SelectKeepsChosen(db, c);
    forall b | b in after.bids ensures after.bids[b].request in after.requests { SelectedBids(db, c, b); }
    assert after.bids[c.bid].status == CHOSEN && after.bids[c.bid].request == c.id;
    forall id | id in after.requests && after.requests[id].status == AUCTION_ASSIGNED
      ensures HasChosenBid(after, id)
    {
      if id != c.id {
        var b :| b in db.bids && db.bids[b].request == id && db.bids[b].status == CHOSEN;
        assert after.bids[b] == db.bids[b];
      }
    }
  }

  lemma ExpireKeepsAuctions(db: Db, c: Call)
    requires AuctionSound(db) && Admits(db, c) && c.ExpireAuction?
    ensures AuctionSound(Apply(db, c))
  {
    AssignedStaysChosen(db, c);
  }

  lemma ApplyKeepsAuctions(db: Db, c: Call)
    requires AuctionSound(db)
    ensures AuctionSound(Apply(db, c))
  {
    if Admits(db, c) {
      if LeavesBids(c) {
        RowCallsKeepAuctions(db, c);
      } else if c.SubmitBid? {
        SubmitKeepsAuctions(db, c);
      } else if c.WithdrawBid? {
        WithdrawKeepsAuctions(db, c);
      } else if c.SelectBid? {
        SelectKeepsAuctions(db, c);
      } else {
        ExpireKeepsAuctions(db, c);
      }
    }
  }

  /** In every run: one bid per center and request, at most one chosen bid per request, the chosen bid is the agreed
      one, none in a running auction, exactly one in an assigned auction. */
  lemma {:induction false} AuctionInvariant(calls: seq<Call>)
    ensures AuctionSound(Exec(calls))
  {
    if calls != [] {
      AuctionInvariant(calls[..|calls| - 1]);
      ApplyKeepsAuctions(Exec(calls[..|calls| - 1]), calls[|calls| - 1]);
    }
  }

  /** What a household sees: the bids of its assigned request name one winner, whose center and rates are the
      request's. */
  lemma AssignedAuctionHasOneWinner(calls: seq<Call>, id: RequestId)
    requires id in Exec(calls).requests
    requires Exec(calls).requests[id].status == AUCTION_ASSIGNED
    ensures var db := Exec(calls);
      exists b :: b in db.bids && db.bids[b].request == id && db.bids[b].status == CHOSEN
        && db.requests[id].center == Some(db.bids[b].center) && db.requests[id].agreedRates == Some(db.bids[b].rates)
        && forall d :: d in db.bids && db.bids[d].request == id && db.bids[d].status == CHOSEN ==> d == b
  {
    AuctionInvariant(calls);
    var db := Exec(calls);
    assert HasChosenBid(db, id);
    var b :| b in db.bids && db.bids[b].request == id && db.bids[b].status == CHOSEN;
  }

  /** A running auction has no chosen bid, so the check for one before an auction expires never holds it back. */
  lemma RunningAuctionHasNoChosenBid(calls: seq<Call>, id: RequestId)
    requires id in Exec(calls).requests && Exec(calls).requests[id].status == AUCTION_ACTIVE
    ensures !HasChosenBid(Exec(calls), id)
    ensures Admits(Exec(calls), ExpireAuction(id))
  {
    AuctionInvariant(calls);
  }

  // ---------- Where an agreement comes from ----------

  /** Call i of the run offers these rates for the request in the name of the center: by a bid, or by taking
      it directly. */
  predicate OffersAt(calls: seq<Call>, i: nat, id: RequestId, center: User, rates: Rates)
    requires i < |calls|
  {
    var c := calls[i];
    || (c.SubmitBid? && c.id == id && c.center == center && c.rates == rates)
    || (c.ClaimAutomatic? && c.id == id && c.center == center && c.priceList == rates)
  }

  ghost predicate Offered(calls: seq<Call>, id: RequestId, center: User, rates: Rates) {
    exists i :: 0 <= i < |calls| && OffersAt(calls, i, id, center, rates)
  }

  lemma OfferedBefore(calls: seq<Call>, id: RequestId, center: User, rates: Rates)
    requires calls != []
    ensures Offered(calls[..|calls| - 1], id, center, rates) ==> Offered(calls, id, center, rates)
    ensures OffersAt(calls, |calls| - 1, id, center, rates) ==> Offered(calls, id, center, rates)
  {
    var front := calls[..|calls| - 1];
    if Offered(front, id, center, rates) {
      var i :| 0 <= i < |front| && OffersAt(front, i, id, center, rates);
      assert OffersAt(calls, i, id, center, rates);
    }
  }

  /** Every stored bid was submitted by its own center, for its own request, with the stored rates. */
  lemma {:induction false} BidsWereSubmitted(calls: seq<Call>, b: BidId)
    requires b in Exec(calls).bids
    ensures var bid := Exec(calls).bids[b]; Offered(calls, bid.request, bid.center, bid.rates)
  {
    var db, c := Exec(calls[..|calls| - 1]), calls[|calls| - 1];
    var bid := Exec(calls).bids[b];
    OfferedBefore(calls, bid.request, bid.center, bid.rates);
    if b in db.bids {
      BidsWereSubmitted(calls[..|calls| - 1], b);
      assert bid.request == db.bids[b].request && bid.center == db.bids[b].center;
      if bid.rates != db.bids[b].rates {
        assert OffersAt(calls, |calls| - 1, bid.request, bid.center, bid.rates);
      }
    } else {
      assert OffersAt(calls, |calls| - 1, bid.request, bid.center, bid.rates);
    }
  }

  /** In every run, the rates agreed on a request were offered for it by the very center assigned to it,
      through any number of abandons, expired auctions and new bids. */
  lemma {:induction false} AgreementWasOffered(calls: seq<Call>, id: RequestId)
    requires id in Exec(calls).requests && Exec(calls).requests[id].center.Some?
    ensures var r := Exec(calls).requests[id];
      r.agreedRates.Some? && Offered(calls, id, r.center.value, r.agreedRates.value)
  {
    var front, c := calls[..|calls| - 1], calls[|calls| - 1];
    var db, r := Exec(front), Exec(calls).requests[id];
    if c.id == id && Admits(db, c) && c.SelectBid? {
      BidsWereSubmitted(front, c.bid);
      OfferedBefore(calls, id, r.center.value, r.agreedRates.value);
    } else if c.id == id && Admits(db, c) && c.ClaimAutomatic? {
      assert OffersAt(calls, |calls| - 1, id, r.center.value, r.agreedRates.value);
    } else {
      assert id in db.requests && r.center == db.requests[id].center && r.agreedRates == db.requests[id].agreedRates;
      AgreementWasOffered(front, id);
      OfferedBefore(calls, id, r.center.value, r.agreedRates.value);
    }
  }

  // ---------- Escrow ----------

  /** Total a collector has in escrow. */
  ghost function InEscrow(db: Db, u: User): int { Sum(Held(db, u)) }

  lemma EscrowMoves(db: Db, c: Call, u: User)
    requires Admits(db, c)
    ensures InEscrow(Apply(db, c), u)
         == InEscrow(db, u) - Get(Held(db, u), c.id) + HeldBy(Row(c, Before(db, c), db.bids), u)
  {
    var row := Row(c, Before(db, c), db.bids);
    SumUpdate(Held(db, u), c.id, HeldBy(row, u));
    assert Held(Apply(db, c), u) == Held(db, u)[c.id := HeldBy(row, u)];
  }

  /** What a call releases of u's escrow: the row's amount when the row stops being served by u. */
  ghost function Released(db: Db, c: Call, u: User): int {
    if Admits(db, c) && !(Row(c, Before(db, c), db.bids).collector == Some(u)
                          && CanVerifyPin(Row(c, Before(db, c), db.bids).status))
    then HeldBy(Before(db, c), u) else 0
  }

  lemma RowEscrow(db: Db, c: Call, u: User)
    requires RowsSound(db) && Admits(db, c)
    ensures HeldBy(Row(c, Before(db, c), db.bids), u)
         == HeldBy(Before(db, c), u) + (if c.Accept? && c.collector == u then c.required else 0) - Released(db, c, u)
  {
  }

  /** Escrow is conserved: accepting adds exactly the required amount to the accepting collector, and every call that
      ends the service of a request gives back exactly what that request held; nothing else moves anyone's escrow. */
  lemma EscrowAccounting(db: Db, c: Call, u: User)
    requires RowsSound(db)
    ensures InEscrow(Apply(db, c), u)
         == InEscrow(db, u)
            + (if c.Accept? && c.collector == u && Admits(db, c) then c.required else 0)
            - Released(db, c, u)
  {
    if Admits(db, c) {
      EscrowMoves(db, c, u);
      RowEscrow(db, c, u);
      assert Get(Held(db, u), c.id) == HeldBy(Before(db, c), u);
    } else {
      assert Apply(db, c) == db;
    }
  }

  /** Whenever u accepts a request, the on-chain balance is at most `limit`, and so are the deposits if the chain
      reads zero; deposits beside a non-zero balance do not matter. */
  predicate BalancesWithin(calls: seq<Call>, u: User, limit: nat) {
    forall i :: 0 <= i < |calls| && calls[i].Accept? && calls[i].collector == u ==>
      calls[i].chainBalance <= limit && (calls[i].chainBalance == 0 ==> calls[i].deposits <= limit)
  }

  lemma StepKeepsSolvent(db: Db, c: Call, u: User, limit: nat)
    requires RowsSound(db) && InEscrow(db, u) <= limit
    requires c.Accept? && c.collector == u ==>
      c.chainBalance <= limit && (c.chainBalance == 0 ==> c.deposits <= limit)
    ensures InEscrow(Apply(db, c), u) <= limit
  {
    EscrowAccounting(db, c, u);
  }

  /** A collector's escrow never exceeds the balances reported when accepting. */
  lemma {:induction false} EscrowStaysWithinBalance(calls: seq<Call>, u: User, limit: nat)
    requires BalancesWithin(calls, u, limit)
    ensures InEscrow(Exec(calls), u) <= limit
  {
    if calls == [] {
      assert Held(EMPTY_DB, u) == map[];
    } else {
      EscrowStaysWithinBalance(calls[..|calls| - 1], u, limit);
      LifecycleInvariant(calls[..|calls| - 1]);
      StepKeepsSolvent(Exec(calls[..|calls| - 1]), calls[|calls| - 1], u, limit);
    }
  }
}
