/** The collection services as they run on the request and bid tables. */
module CollectionServices {
  import opened Wrappers
  import opened Sums
  import opened Collections
  import opened CollectionRuns
  import opened CollectionEffects

  /** The call was admitted or not, and the tables are what the call makes of them. */
  ghost predicate Did(before: Db, after: Db, ok: bool, c: Call) {
    ok == Admits(before, c) && after == Apply(before, c)
  }

  ghost function ApplyAll(db: Db, calls: seq<Call>): Db {
    if calls == [] then db else Apply(ApplyAll(db, calls[..|calls| - 1]), calls[|calls| - 1])
  }

  /** Calls that are all admitted when their turn comes. */
  ghost predicate AllAdmitted(db: Db, calls: seq<Call>) {
    calls == [] ||
    (AllAdmitted(db, calls[..|calls| - 1]) && Admits(ApplyAll(db, calls[..|calls| - 1]), calls[|calls| - 1]))
  }

  // ---------- What the timeout steps select ----------

  /** How many rows the timeout worker selects at most. */
  const WORKER_LIMIT := 50

  /** A row a timeout step selects: in its status, overdue by the clock, and, once accepted, not yet on the way. */
  predicate IsDue(db: Db, status: Status, overdue: set<RequestId>, id: RequestId) {
    id in overdue && id in db.requests && db.requests[id].status == status
    && (status == ACCEPTED ==> !db.requests[id].onRoute)
  }

  /** A selection of due rows, each once and as many as there are up to the limit. */
  ghost predicate Selects(db: Db, status: Status, overdue: set<RequestId>, limit: nat, selected: seq<RequestId>) {
    && |selected| <= limit
    && (forall i, j :: 0 <= i < j < |selected| ==> selected[i] != selected[j])
    && (forall id :: id in selected ==> IsDue(db, status, overdue, id))
    && (|selected| < limit ==> forall id :: IsDue(db, status, overdue, id) ==> id in selected)
  }

  /** What a selection holds are overdue rows whose timeout is admitted, and below the limit it holds all of them. */
  lemma SelectionIsExact(db: Db, status: Status, overdue: set<RequestId>, limit: nat, selected: seq<RequestId>,
                         id: RequestId)
    requires Sound(db) && Selects(db, status, overdue, limit, selected)
    requires status in {PENDING, AUCTION_ACTIVE, ACCEPTED, ARRIVED}
    ensures id in selected ==> id in overdue && Admits(db, TimeoutCall(status, id))
    ensures |selected| < limit && id in overdue && Admits(db, TimeoutCall(status, id)) ==> id in selected
  {
    assert id in selected ==> IsDue(db, status, overdue, id);
    assert |selected| < limit && IsDue(db, status, overdue, id) ==> id in selected;
  }

  /** The step a timeout makes on each selected row. */
  function TimeoutCall(status: Status, id: RequestId): Call {
    match status
    case PENDING => PendingTimeout(id)
    case ACCEPTED => InactivityTimeout(id)
    case ARRIVED => ArrivedTimeout(id)
    case _ => ExpireAuction(id)
  }

  function TimeoutCalls(status: Status, selected: seq<RequestId>): (calls: seq<Call>)
    ensures |calls| == |selected|
    ensures forall i :: 0 <= i < |selected| ==> calls[i] == TimeoutCall(status, selected[i])
  {
    seq(|selected|, i requires 0 <= i < |selected| => TimeoutCall(status, selected[i]))
  }

  /** The tables are what the calls make of them, one after the other, and each of them was admitted. */
  ghost predicate Written(before: Db, after: Db, calls: seq<Call>) {
    AllAdmitted(before, calls) && after == ApplyAll(before, calls)
  }

  lemma OneMoreWritten(before: Db, db: Db, calls: seq<Call>, c: Call)
    requires Written(before, db, calls) && Admits(db, c)
    ensures Written(before, Apply(db, c), calls + [c])
  {
    assert (calls + [c])[..|calls|] == calls;
  }

  lemma OneMoreSelected(status: Status, selected: seq<RequestId>, done: nat)
    requires done < |selected|
    ensures TimeoutCalls(status, selected[..done + 1])
         == TimeoutCalls(status, selected[..done]) + [TimeoutCall(status, selected[done])]
  {
  }

  /** A row that no call is about stays as it is. */
  lemma {:induction false} UntouchedRow(before: Db, calls: seq<Call>, id: RequestId)
    requires forall i :: 0 <= i < |calls| ==> calls[i].id != id
    ensures id in ApplyAll(before, calls).requests <==> id in before.requests
    ensures id in before.requests ==> ApplyAll(before, calls).requests[id] == before.requests[id]
  {
    if calls != [] {
      UntouchedRow(before, calls[..|calls| - 1], id);
      assert calls[|calls| - 1].id != id;
    }
  }

  /** The next selected row is still as it was selected. */
  lemma NextIsDue(before: Db, status: Status, overdue: set<RequestId>, limit: nat, selected: seq<RequestId>, done: nat)
    requires done < |selected| && Selects(before, status, overdue, limit, selected)
    ensures IsDue(ApplyAll(before, TimeoutCalls(status, selected[..done])), status, overdue, selected[done])
  {
    var calls := TimeoutCalls(status, selected[..done]);
    forall i | 0 <= i < done ensures calls[i].id != selected[done] { assert selected[i] != selected[done]; }
    UntouchedRow(before, calls, selected[done]);
    assert IsDue(before, status, overdue, selected[done]);
  }

  /** So writing it without another look is one more admitted call. */
  lemma NextTimeout(before: Db, db: Db, status: Status, overdue: set<RequestId>, limit: nat,
                    selected: seq<RequestId>, done: nat)
    requires status in {PENDING, ACCEPTED, ARRIVED}
    requires done < |selected| && Selects(before, status, overdue, limit, selected)
    requires Written(before, db, TimeoutCalls(status, selected[..done]))
    ensures Admits(db, TimeoutCall(status, selected[done]))
    ensures Written(before, Apply(db, TimeoutCall(status, selected[done])), TimeoutCalls(status, selected[..done + 1]))
  {
    NextIsDue(before, status, overdue, limit, selected, done);
    OneMoreSelected(status, selected, done);
    OneMoreWritten(before, db, TimeoutCalls(status, selected[..done]), TimeoutCall(status, selected[done]));
  }

  class Tables {
    var requests: map<RequestId, Request>
    var bids: map<BidId, Bid>

    constructor ()
      ensures View() == EMPTY_DB && Valid()
    {
      requests, bids := map[], map[];
    }

    function View(): Db
      reads this
    {
      Db(requests, bids)
    }

    /** Rows are sound, households have one active request each, and bids and agreements are consistent. */
    ghost predicate Valid()
      reads this
    {
      Sound(View())
    }

    // ----- CollectionLifecycleService -----

    /** Looks for a request of the household that is not over. */
    method FindActive(household: User) returns (found: Option<RequestId>)
      ensures found.Some? <==> HouseholdIsBusy(View(), household)
      ensures found.Some? ==> found.value in requests && !IsTerminal(requests[found.value].status)
      ensures found.Some? ==> requests[found.value].household == household
    {
      var todo := requests.Keys;
      while todo != {}
        invariant todo <= requests.Keys
        invariant forall id :: id in requests.Keys - todo ==>
          requests[id].household != household || IsTerminal(requests[id].status)
        decreases todo
      {
        var id :| id in todo;
        if requests[id].household == household && !IsTerminal(requests[id].status) { return Some(id); }
        todo := todo - {id};
      }
      return None;
    }

    /** Opens a request without bids or escrow for a household that has none open; it can open no other meanwhile. */
    method CreateRequest(id: RequestId, household: User, mode: Mode, items: Rates, valid: bool) returns (ok: bool)
      requires Valid()
      modifies this
      ensures Valid() && Did(old(View()), View(), ok, Call.Create(id, household, mode, items, valid))
      ensures ok ==> Opened(old(View()), View(), id, household)
    {
      ghost var c := Call.Create(id, household, mode, items, valid);
      ApplyKeepsSound(View(), c);
      if Admits(View(), c) { OpeningCall(View(), c); }
      var active := FindActive(household);
      if active.Some? || !valid || id in requests { return false; }
      var status := if mode == AUCTION then AUCTION_ACTIVE else PENDING;
      requests := requests[id := Request(household, status, mode, items, None, None, None, 0, None, false)];
      return true;
    }

    /** Adds up what the collector's active requests hold back. */
    method ActiveEscrow(collector: User) returns (total: nat)
      ensures total == Sum(Held(View(), collector))
    {
      total := 0;
      var todo := requests.Keys;
      ghost var held := Held(View(), collector);
      assert held - todo == map[];
      while todo != {}
        invariant todo <= requests.Keys
        invariant total == Sum(held - todo)
        decreases todo
      {
        var id :| id in todo;
        SumRemove(held - (todo - {id}), id);
        assert (held - (todo - {id})) - {id} == held - todo;
        var r := requests[id];
        if r.collector == Some(collector) && CanVerifyPin(r.status) {
          total := total + r.escrow;
        }
        todo := todo - {id};
      }
      assert held - todo == held;
    }

    method ValidateSolvency(collector: User, required: nat, chainBalance: nat, deposits: nat) returns (ok: bool)
      ensures required == 0 ==> ok
      ensures required > 0 && chainBalance > 0 ==> (ok <==> required + Sum(Held(View(), collector)) <= chainBalance)
      ensures required > 0 && chainBalance == 0 ==> (ok <==> required + Sum(Held(View(), collector)) <= deposits)
    {
      if required == 0 { return true; }
      var totalBalance := chainBalance;
      if totalBalance == 0 { totalBalance := deposits; }
      var active := ActiveEscrow(collector);
      return totalBalance - active >= required;
    }

    method AcceptRequest(id: RequestId, collector: User, kyc: bool, required: nat, chainBalance: nat, deposits: nat)
      returns (ok: bool)
      requires Valid()
      modifies this
      ensures Valid() && Did(old(View()), View(), ok, Call.Accept(id, collector, kyc, required, chainBalance, deposits))
      ensures ok ==> InEscrow(View(), collector) == InEscrow(old(View()), collector) + required
    {
      ghost var c := Call.Accept(id, collector, kyc, required, chainBalance, deposits);
      ApplyKeepsSound(View(), c);
      if Admits(View(), c) { AcceptingCall(View(), c); }
      if id !in requests { return false; }
      var r := requests[id];
      if r.status != PENDING && r.status != AUCTION_ASSIGNED { return false; }
      if r.center.None? || !kyc { return false; }
      ok := ValidateSolvency(collector, required, chainBalance, deposits);
      if ok {
        requests := requests[id := r.(status := ACCEPTED, collector := Some(collector), escrow := required)];
      }
    }

    /** Ends the request in any status: escrow is released, and an active household is free to ask again. */
    method CancelAsCollector(id: RequestId, collector: User) returns (ok: bool)
      requires Valid()
      modifies this
      ensures Valid() && Did(old(View()), View(), ok, Call.CancelByCollector(id, collector))
      ensures ok ==> Closed(old(View()), View(), id, CANCELLED)
    {
      ghost var c := Call.CancelByCollector(id, collector);
      ApplyKeepsSound(View(), c);
      if Admits(View(), c) { ClosingCall(View(), c); }
      if id !in requests || requests[id].collector != Some(collector) { return false; }
      requests := requests[id := requests[id].(status := CANCELLED, escrow := 0)];
      return true;
    }

    /** Ends an open request, in which nobody has escrow. */
    method CancelAsHousehold(id: RequestId, household: User) returns (ok: bool)
      requires Valid()
      modifies this
      ensures Valid() && Did(old(View()), View(), ok, Call.CancelByHousehold(id, household))
      ensures ok ==> Closed(old(View()), View(), id, CANCELLED) && EscrowStays(old(View()), View())
      ensures ok ==> !HouseholdIsBusy(View(), household)
    {
      ghost var c := Call.CancelByHousehold(id, household);
      ApplyKeepsSound(View(), c);
      if Admits(View(), c) { ClosingCall(View(), c); }
      if id !in requests || requests[id].household != household { return false; }
      var status := requests[id].status;
      if status != PENDING && status != AUCTION_ACTIVE && status != AUCTION_ASSIGNED { return false; }
      requests := requests[id := requests[id].(status := CANCELLED, escrow := 0)];
      return true;
    }

    /** Releases the collector's escrow and puts the request back on offer, to any approved collector. */
    method AbandonRequest(id: RequestId, collector: User) returns (ok: bool)
      requires Valid()
      modifies this
      ensures Valid() && Did(old(View()), View(), ok, Call.Abandon(id, collector))
      ensures ok ==> BackOnOffer(old(View()), View(), id)
    {
      ghost var c := Call.Abandon(id, collector);
      ApplyKeepsSound(View(), c);
      if Admits(View(), c) { GivingBackCall(View(), c); }
      if id !in requests || requests[id].collector != Some(collector) { return false; }
      if requests[id].status != ACCEPTED { return false; }
      requests := requests[id := requests[id].(status := PENDING, collector := None, batch := None, escrow := 0)];
      return true;
    }

    /** Changes the items of a pending request, and with them neither escrow nor what any later call may do. */
    method EditRequest(id: RequestId, household: User, items: Rates) returns (ok: bool)
      requires Valid()
      modifies this
      ensures Valid() && Did(old(View()), View(), ok, Call.Edit(id, household, items))
      ensures ok ==> id in requests && requests[id].items == items
      ensures ok ==> SameAdmissions(old(View()), View()) && EscrowStays(old(View()), View())
    {
      ghost var c := Call.Edit(id, household, items);
      ApplyKeepsSound(View(), c);
      if Admits(View(), c) { EditingCall(View(), c); }
      if id !in requests || requests[id].household != household || requests[id].status != PENDING { return false; }
      requests := requests[id := requests[id].(items := items)];
      return true;
    }

    /** Ends an arrived request whose household did not show up. */
    method NoShow(id: RequestId, collector: User, waited: bool) returns (ok: bool)
      requires Valid()
      modifies this
      ensures Valid() && Did(old(View()), View(), ok, Call.ReportNoShow(id, collector, waited))
      ensures ok ==> Closed(old(View()), View(), id, UNATTENDED)
    {
      ghost var c := Call.ReportNoShow(id, collector, waited);
      ApplyKeepsSound(View(), c);
      if Admits(View(), c) { ClosingCall(View(), c); }
      if id !in requests || requests[id].collector != Some(collector) { return false; }
      if requests[id].status != ARRIVED || !waited { return false; }
      requests := requests[id := requests[id].(status := UNATTENDED, escrow := 0)];
      return true;
    }

    /** Ends an arrived request whose materials the collector turns down. */
    method RejectAtDoor(id: RequestId, collector: User, valid: bool) returns (ok: bool)
      requires Valid()
      modifies this
      ensures Valid() && Did(old(View()), View(), ok, Call.RejectOnSite(id, collector, valid))
      ensures ok ==> Closed(old(View()), View(), id, REJECTED_ON_SITE)
    {
      ghost var c := Call.RejectOnSite(id, collector, valid);
      ApplyKeepsSound(View(), c);
      if Admits(View(), c) { ClosingCall(View(), c); }
      if id !in requests || requests[id].collector != Some(collector) { return false; }
      if requests[id].status != ARRIVED || !valid { return false; }
      requests := requests[id := requests[id].(status := REJECTED_ON_SITE, escrow := 0)];
      return true;
    }

    // ----- CollectionTrackingService -----

    /** The collector is on the way, for which nothing is released and nothing can be taken back; saying it again
        changes nothing more. */
    method BeginRoute(id: RequestId, collector: User) returns (ok: bool)
      requires Valid()
      modifies this
      ensures Valid() && Did(old(View()), View(), ok, Call.StartRoute(id, collector))
      ensures ok ==> OnTheWay(old(View()), View(), id, EN_ROUTE)
      ensures ok ==> Repeatable(View(), Call.StartRoute(id, collector))
    {
      ghost var c := Call.StartRoute(id, collector);
      ApplyKeepsSound(View(), c);
      if Admits(View(), c) { TravellingCall(View(), c); }
      if id !in requests || requests[id].collector != Some(collector) { return false; }
      if requests[id].status == EN_ROUTE {
        AlreadyThere(View(), c);
        return true;
      }
      if requests[id].status != ACCEPTED { return false; }
      requests := requests[id := requests[id].(status := EN_ROUTE, onRoute := true)];
      return true;
    }

    /** The collector is there; saying it again changes nothing more. */
    method Arrive(id: RequestId, collector: User) returns (ok: bool)
      requires Valid()
      modifies this
      ensures Valid() && Did(old(View()), View(), ok, Call.ReachDestination(id, collector))
      ensures ok ==> OnTheWay(old(View()), View(), id, ARRIVED)
      ensures ok ==> Repeatable(View(), Call.ReachDestination(id, collector))
    {
      ghost var c := Call.ReachDestination(id, collector);
      ApplyKeepsSound(View(), c);
      if Admits(View(), c) { TravellingCall(View(), c); }
      if id !in requests || requests[id].collector != Some(collector) { return false; }
      if requests[id].status == ARRIVED {
        AlreadyThere(View(), c);
        return true;
      }
      if requests[id].status != EN_ROUTE { return false; }
      requests := requests[id := requests[id].(status := ARRIVED)];
      return true;
    }

    // ----- CollectionsRepository -----

    /** One conditional UPDATE that works once: it ends a request being served and releases its escrow. */
    method AtomicCompleteRequest(id: RequestId, batch: Option<nat>) returns (ok: bool)
      requires Valid()
      modifies this
      ensures Valid() && Did(old(View()), View(), ok, Call.CompleteIfActive(id, batch))
      ensures ok ==> Closed(old(View()), View(), id, COMPLETED)
    {
      ghost var c := Call.CompleteIfActive(id, batch);
      ApplyKeepsSound(View(), c);
      if Admits(View(), c) { ClosingCall(View(), c); }
      if id !in requests || !CanVerifyPin(requests[id].status) { return false; }
      requests := requests[id := requests[id].(status := COMPLETED, batch := batch)];
      return true;
    }

    // ----- CollectionAuctionService -----

    method FindBid(id: RequestId, center: User) returns (found: Option<BidId>)
      ensures FindFirst(bids, id, center, found)
    {
      var todo := bids.Keys;
      while todo != {}
        invariant todo <= bids.Keys
        invariant forall b :: b in bids.Keys - todo ==> !(bids[b].request == id && bids[b].center == center)
        decreases todo
      {
        var b :| b in todo;
        if bids[b].request == id && bids[b].center == center { return Some(b); }
        todo := todo - {b};
      }
      return None;
    }

    method PlaceBid(id: RequestId, center: User, rates: Rates, expired: bool, newBid: BidId)
      returns (ok: bool, ghost found: Option<BidId>)
      requires Valid() && newBid !in bids
      modifies this
      ensures Valid() && Did(old(View()), View(), ok, Call.SubmitBid(id, center, rates, expired, found, newBid))
    {
      found := None;
      if id !in requests { return false, found; }
      var r := requests[id];
      if r.status != PENDING && r.status != AUCTION_ACTIVE { return false, found; }
      if r.mode != AUCTION || expired || rates == map[] { return false, found; }
      var existing := FindBid(id, center);
      found := existing;
      ApplyKeepsSound(View(), Call.SubmitBid(id, center, rates, expired, found, newBid));
      assert requests[id := requests[id]] == requests;
      if existing.Some? {
        bids := bids[existing.value := bids[existing.value].(rates := rates, status := OFFERED)];
      } else {
        bids := bids[newBid := Bid(id, center, rates, OFFERED)];
      }
      return true, found;
    }

    method TakeBackBid(id: RequestId, center: User) returns (ok: bool, ghost found: Option<BidId>)
      requires Valid()
      modifies this
      ensures Valid() && Did(old(View()), View(), ok, Call.WithdrawBid(id, center, found))
    {
      var existing := FindBid(id, center);
      found := existing;
      ApplyKeepsSound(View(), Call.WithdrawBid(id, center, found));
      if existing.None? || bids[existing.value].status != OFFERED { return false, found; }
      assert bids[existing.value].request in requests;
      bids := bids[existing.value := bids[existing.value].(status := WITHDRAWN)];
      assert requests[id := requests[id]] == requests;
      return true, found;
    }

    /** Accepts one bid and rejects all others of its request. */
    method MarkWinner(id: RequestId, household: User, bid: BidId)
      requires bid in bids && bids[bid].request == id
      modifies this`bids
      ensures bids == Bids(Call.SelectBid(id, household, bid), old(bids))
    {
      bids := bids[bid := bids[bid].(status := CHOSEN)];
      bids := map b | b in bids :: if b != bid && bids[b].request == id then bids[b].(status := REJECTED) else bids[b];
    }

    method ChooseBid(id: RequestId, household: User, bid: BidId) returns (ok: bool)
      requires Valid()
      modifies this
      ensures Valid() && Did(old(View()), View(), ok, Call.SelectBid(id, household, bid))
    {
      ghost var c := Call.SelectBid(id, household, bid);
      ApplyKeepsSound(View(), c);
      if id !in requests || requests[id].household != household { return false; }
      var r := requests[id];
      if r.status != PENDING && r.status != AUCTION_ACTIVE { return false; }
      if bid !in bids || bids[bid].request != id || bids[bid].status != OFFERED { return false; }
      var winner := bids[bid];
      MarkWinner(id, household, bid);
      requests := requests[id := r.(status := AUCTION_ASSIGNED, center := Some(winner.center),
                                    agreedRates := Some(winner.rates))];
      return true;
    }

    /** The first center to come takes an automatic request; no other can, and any approved collector may accept it. */
    method TakeAutomatic(id: RequestId, center: User, priceList: Rates) returns (ok: bool)
      requires Valid()
      modifies this
      ensures Valid() && Did(old(View()), View(), ok, Call.ClaimAutomatic(id, center, priceList))
      ensures ok ==> TakenBy(old(View()), View(), id, center)
    {
      ghost var c := Call.ClaimAutomatic(id, center, priceList);
      ApplyKeepsSound(View(), c);
      if Admits(View(), c) { TakingCall(View(), c); }
      if id !in requests { return false; }
      var r := requests[id];
      if r.status != PENDING || r.mode != AUTOMATIC || r.center.Some? || priceList == map[] { return false; }
      requests := requests[id := r.(center := Some(center), agreedRates := Some(priceList))];
      return true;
    }

    // ----- Timeouts -----

    /** The rows a timeout step is about to write. */
    method Select(status: Status, overdue: set<RequestId>, limit: nat) returns (selected: seq<RequestId>)
      ensures Selects(View(), status, overdue, limit, selected)
    {
      selected := [];
      var todo := requests.Keys;
      while todo != {} && |selected| < limit
        invariant todo <= requests.Keys && |selected| <= limit
        invariant forall i, j :: 0 <= i < j < |selected| ==> selected[i] != selected[j]
        invariant forall id :: id in requests.Keys - todo ==> (id in selected <==> IsDue(View(), status, overdue, id))
        invariant forall id :: id in selected ==> id in requests.Keys - todo
        decreases todo
      {
        var id :| id in todo;
        assert id !in selected;
        if id in overdue && requests[id].status == status && (status == ACCEPTED ==> !requests[id].onRoute) {
          selected := selected + [id];
        }
        todo := todo - {id};
      }
    }

    method HasAcceptedBid(id: RequestId) returns (found: bool)
      ensures found <==> HasChosenBid(View(), id)
    {
      var todo := bids.Keys;
      while todo != {}
        invariant todo <= bids.Keys
        invariant forall b :: b in bids.Keys - todo ==> !(bids[b].request == id && bids[b].status == CHOSEN)
        decreases todo
      {
        var b :| b in todo;
        if bids[b].request == id && bids[b].status == CHOSEN { return true; }
        todo := todo - {b};
      }
      return false;
    }

    /** One row of the auction fallback. The look for an accepted bid never stops it, and afterwards no bid of the
        request can be chosen or placed. */
    method ExpireOne(id: RequestId) returns (ok: bool)
      requires Valid() && id in requests && requests[id].status == AUCTION_ACTIVE
      modifies this
      ensures ok && Valid() && Did(old(View()), View(), true, Call.ExpireAuction(id))
      ensures AuctionOver(old(View()), View(), id)
    {
      ghost var c := Call.ExpireAuction(id);
      ApplyKeepsSound(View(), c);
      assert !HasChosenBid(View(), id);
      ExpiringCall(View(), c);
      var accepted := HasAcceptedBid(id);
      ok := !accepted;
      if ok {
        bids := map b | b in bids :: if bids[b].request == id && bids[b].status == OFFERED
                                     then bids[b].(status := EXPIRED) else bids[b];
        requests := requests[id := requests[id].(status := PENDING, mode := AUTOMATIC)];
      }
    }

    /** The auction fallbacks of the worker (at most 50 rows) and of the auction service (no limit). */
    method ProcessAuctionFallbacks(overdue: set<RequestId>, limit: nat) returns (selected: seq<RequestId>)
      requires Valid()
      modifies this
      ensures Selects(old(View()), AUCTION_ACTIVE, overdue, limit, selected)
      ensures Valid() && Written(old(View()), View(), TimeoutCalls(AUCTION_ACTIVE, selected))
    {
      selected := Select(AUCTION_ACTIVE, overdue, limit);
      for i := 0 to |selected|
        invariant Valid() && Written(old(View()), View(), TimeoutCalls(AUCTION_ACTIVE, selected[..i]))
      {
        NextIsDue(old(View()), AUCTION_ACTIVE, overdue, limit, selected, i);
        OneMoreSelected(AUCTION_ACTIVE, selected, i);
        ghost var db := View();
        var ok := ExpireOne(selected[i]);
        OneMoreWritten(old(View()), db, TimeoutCalls(AUCTION_ACTIVE, selected[..i]), ExpireAuction(selected[i]));
      }
      assert selected[..|selected|] == selected;
    }

    /** One row of the lifecycle service's own fallback: the pending bids stay, and can still be chosen. */
    method ExpireRowOnly(id: RequestId)
      requires Valid() && id in requests && requests[id].status == AUCTION_ACTIVE
      modifies this`requests
      ensures Valid() && Did(old(View()), View(), true, Call.ExpireAuctionRowOnly(id))
      ensures BidsLeftOver(old(View()), View(), id)
    {
      ghost var c := Call.ExpireAuctionRowOnly(id);
      ApplyKeepsSound(View(), c);
      RowOnlyExpiringCall(View(), c);
      requests := requests[id := requests[id].(status := PENDING, mode := AUTOMATIC)];
    }

    /** The update a timeout makes on a row it has selected, by id and without another look at it. */
    method UpdateRow(status: Status, id: RequestId)
      requires status in {PENDING, ACCEPTED, ARRIVED} && Admits(View(), TimeoutCall(status, id))
      modifies this`requests
      ensures View() == Apply(old(View()), TimeoutCall(status, id))
    {
      if status == PENDING {
        requests := requests[id := requests[id].(status := CANCELLED)];
      } else if status == ACCEPTED {
        requests := requests[id := requests[id].(status := PENDING, collector := None, escrow := 0)];
      } else {
        requests := requests[id := requests[id].(status := UNATTENDED, escrow := 0)];
      }
    }

    method UpdateSelected(status: Status, overdue: set<RequestId>, selected: seq<RequestId>)
      requires Valid() && status in {PENDING, ACCEPTED, ARRIVED}
      requires Selects(View(), status, overdue, WORKER_LIMIT, selected)
      modifies this`requests
      ensures Valid() && Written(old(View()), View(), TimeoutCalls(status, selected))
    {
      for i := 0 to |selected|
        invariant Valid() && Written(old(View()), View(), TimeoutCalls(status, selected[..i]))
      {
        NextTimeout(old(View()), View(), status, overdue, WORKER_LIMIT, selected, i);
        ApplyKeepsSound(View(), TimeoutCall(status, selected[i]));
        UpdateRow(status, selected[i]);
      }
      assert selected[..|selected|] == selected;
    }

    method ProcessPendingTimeouts(overdue: set<RequestId>) returns (selected: seq<RequestId>)
      requires Valid()
      modifies this`requests
      ensures Selects(old(View()), PENDING, overdue, WORKER_LIMIT, selected)
      ensures Valid() && Written(old(View()), View(), TimeoutCalls(PENDING, selected))
    {
      selected := Select(PENDING, overdue, WORKER_LIMIT);
      UpdateSelected(PENDING, overdue, selected);
    }

    method ProcessAcceptedInactivity(overdue: set<RequestId>) returns (selected: seq<RequestId>)
      requires Valid()
      modifies this`requests
      ensures Selects(old(View()), ACCEPTED, overdue, WORKER_LIMIT, selected)
      ensures Valid() && Written(old(View()), View(), TimeoutCalls(ACCEPTED, selected))
    {
      selected := Select(ACCEPTED, overdue, WORKER_LIMIT);
      UpdateSelected(ACCEPTED, overdue, selected);
    }

    method ProcessArrivedNoShows(overdue: set<RequestId>) returns (selected: seq<RequestId>)
      requires Valid()
      modifies this`requests
      ensures Selects(old(View()), ARRIVED, overdue, WORKER_LIMIT, selected)
      ensures Valid() && Written(old(View()), View(), TimeoutCalls(ARRIVED, selected))
    {
      selected := Select(ARRIVED, overdue, WORKER_LIMIT);
      UpdateSelected(ARRIVED, overdue, selected);
    }
  }
}
