/** Collection requests and auction bids: the rows that the lifecycle, auction,
    tracking, verification and timeout services all write, one service call a step. */
module Collections {
  import opened Wrappers
  import Sums

  type User = nat
  type RequestId = nat
  type BidId = nat
  /** Prices per material, or estimated kilograms per material, in hundredths. */
  type Rates = map<string, nat>

  datatype Status =
    | PENDING | AUCTION_ACTIVE | AUCTION_ASSIGNED | ACCEPTED | EN_ROUTE | ARRIVED
    | COMPLETED | CANCELLED | UNATTENDED | REJECTED_ON_SITE

  datatype Mode = AUTOMATIC | AUCTION
  /** OFFERED and CHOSEN are the stored values PENDING and ACCEPTED of a bid. */
  datatype BidStatus = OFFERED | CHOSEN | REJECTED | WITHDRAWN | EXPIRED

  datatype Request = Request(
    household: User,
    status: Status,
    mode: Mode,
    items: Rates,
    collector: Option<User>,
    center: Option<User>,
    agreedRates: Option<Rates>,
    escrow: nat,
    batch: Option<nat>,
    onRoute: bool)

  datatype Bid = Bid(request: RequestId, center: User, rates: Rates, status: BidStatus)

  datatype Db = Db(requests: map<RequestId, Request>, bids: map<BidId, Bid>)

  const EMPTY_DB := Db(map[], map[])

  predicate IsTerminal(s: Status) { s.COMPLETED? || s.CANCELLED? || s.UNATTENDED? || s.REJECTED_ON_SITE? }

  predicate CanVerifyPin(s: Status) { s.ACCEPTED? || s.EN_ROUTE? || s.ARRIVED? }

  predicate Open(s: Status) { s.PENDING? || s.AUCTION_ACTIVE? || s.AUCTION_ASSIGNED? }

  /** Service calls and timeout steps, each on one request. Answers of the outside world are arguments:
      `valid` and `waited` for input checks and clocks, `found` for the bid a findFirst returned,
      `newBid` for a newly drawn bid id, balances as the chain and the payment table report them. */
  datatype Call =
    | Create(id: RequestId, household: User, mode: Mode, items: Rates, valid: bool)
    | SubmitBid(id: RequestId, center: User, rates: Rates, expired: bool, found: Option<BidId>, newBid: BidId)
    | WithdrawBid(id: RequestId, center: User, found: Option<BidId>)
    | SelectBid(id: RequestId, household: User, bid: BidId)
    | ClaimAutomatic(id: RequestId, center: User, priceList: Rates)
    | ExpireAuction(id: RequestId)
    | ExpireAuctionRowOnly(id: RequestId)
    | Accept(id: RequestId, collector: User, kyc: bool, required: nat, chainBalance: nat, deposits: nat)
    | CancelByCollector(id: RequestId, collector: User)
    | CancelByHousehold(id: RequestId, household: User)
    | Abandon(id: RequestId, collector: User)
    | Edit(id: RequestId, household: User, items: Rates)
    | StartRoute(id: RequestId, collector: User)
    | ReachDestination(id: RequestId, collector: User)
    | ReportNoShow(id: RequestId, collector: User, waited: bool)
    | RejectOnSite(id: RequestId, collector: User, valid: bool)
    | CompleteIfActive(id: RequestId, batch: Option<nat>)
    | PendingTimeout(id: RequestId)
    | InactivityTimeout(id: RequestId)
    | ArrivedTimeout(id: RequestId)

  /** An answer findFirst may give when asked for the bid of a center on a request. */
  predicate FindFirst(bids: map<BidId, Bid>, id: RequestId, center: User, found: Option<BidId>) {
    match found
    case None => forall b :: b in bids ==> !(bids[b].request == id && bids[b].center == center)
    case Some(b) => b in bids && bids[b].request == id && bids[b].center == center
  }

  predicate HouseholdIsBusy(db: Db, household: User) {
    exists id :: id in db.requests && db.requests[id].household == household && !IsTerminal(db.requests[id].status)
  }

  predicate HasChosenBid(db: Db, id: RequestId) {
    exists b :: b in db.bids && db.bids[b].request == id && db.bids[b].status == CHOSEN
  }

  // ---------- Escrow ----------

  /** What request r holds back from user u's balance. */
  function HeldBy(r: Request, u: User): nat {
    if r.collector == Some(u) && CanVerifyPin(r.status) then r.escrow else 0
  }

  function Held(db: Db, u: User): map<RequestId, int> {
    map id | id in db.requests :: HeldBy(db.requests[id], u)
  }

  /** The on-chain balance, or the completed deposits when that reads as zero. */
  function ReportedBalance(chainBalance: nat, deposits: nat): nat {
    if chainBalance == 0 then deposits else chainBalance
  }

  // ---------- One call ----------

  /** The request row after the call, given that the call is admitted on row r. */
  function Row(c: Call, r: Request, bids: map<BidId, Bid>): Request {
    match c
    case Create(_, household, mode, items, _) =>
      Request(household, if mode == AUCTION then AUCTION_ACTIVE else PENDING, mode, items,
              None, None, None, 0, None, false)
    case SelectBid(_, _, b) =>
      if b !in bids then r
      else r.(status := AUCTION_ASSIGNED, center := Some(bids[b].center), agreedRates := Some(bids[b].rates))
    case ClaimAutomatic(_, center, priceList) => r.(center := Some(center), agreedRates := Some(priceList))
    case ExpireAuction(_) => r.(status := PENDING, mode := AUTOMATIC)
    case ExpireAuctionRowOnly(_) => r.(status := PENDING, mode := AUTOMATIC)
    case Accept(_, collector, _, required, _, _) =>
      r.(status := ACCEPTED, collector := Some(collector), escrow := required)
    case CancelByCollector(_, _) => r.(status := CANCELLED, escrow := 0)
    case CancelByHousehold(_, _) => r.(status := CANCELLED, escrow := 0)
    case Abandon(_, _) => r.(status := PENDING, collector := None, batch := None, escrow := 0)
    case Edit(_, _, items) => r.(items := items)
    case StartRoute(_, _) => if r.status == EN_ROUTE then r else r.(status := EN_ROUTE, onRoute := true)
    case ReachDestination(_, _) => r.(status := ARRIVED)
    case ReportNoShow(_, _, _) => r.(status := UNATTENDED, escrow := 0)
    case RejectOnSite(_, _, _) => r.(status := REJECTED_ON_SITE, escrow := 0)
    case CompleteIfActive(_, batch) => r.(status := COMPLETED, batch := batch)
    case PendingTimeout(_) => r.(status := CANCELLED)
    case InactivityTimeout(_) => r.(status := PENDING, collector := None, escrow := 0)
    case ArrivedTimeout(_) => r.(status := UNATTENDED, escrow := 0)
    case SubmitBid(_, _, _, _, _, _) => r
    case WithdrawBid(_, _, _) => r
  }

  /** The checks a call makes on an existing row before writing. */
  ghost predicate AdmitsRow(db: Db, c: Call, r: Request) {
    match c
    case Create(_, _, _, _, _) => false
    case SubmitBid(id, center, rates, expired, found, newBid) =>
      && (r.status == PENDING || r.status == AUCTION_ACTIVE) && r.mode == AUCTION && !expired && rates != map[]
      && FindFirst(db.bids, id, center, found) && (found.None? ==> newBid !in db.bids)
    case WithdrawBid(id, center, found) =>
      FindFirst(db.bids, id, center, found) && found.Some? && db.bids[found.value].status == OFFERED
    case SelectBid(id, household, b) =>
      && r.household == household && (r.status == PENDING || r.status == AUCTION_ACTIVE)
      && b in db.bids && db.bids[b].request == id && db.bids[b].status == OFFERED
    case ClaimAutomatic(_, _, priceList) =>
      r.status == PENDING && r.mode == AUTOMATIC && r.center == None && priceList != map[]
    case ExpireAuction(id) => r.status == AUCTION_ACTIVE && !HasChosenBid(db, id)
    case ExpireAuctionRowOnly(_) => r.status == AUCTION_ACTIVE
    case Accept(_, collector, kyc, required, chainBalance, deposits) =>
      && (r.status == PENDING || r.status == AUCTION_ASSIGNED) && r.center.Some? && kyc
      && (required == 0 || ReportedBalance(chainBalance, deposits) - Sums.Sum(Held(db, collector)) >= required)
    case CancelByCollector(_, collector) => r.collector == Some(collector)
    case CancelByHousehold(_, household) => r.household == household && Open(r.status)
    case Abandon(_, collector) => r.collector == Some(collector) && r.status == ACCEPTED
    case Edit(_, household, _) => r.household == household && r.status == PENDING
    case StartRoute(_, collector) => r.collector == Some(collector) && (r.status == EN_ROUTE || r.status == ACCEPTED)
    case ReachDestination(_, collector) =>
      r.collector == Some(collector) && (r.status == EN_ROUTE || r.status == ARRIVED)
    case ReportNoShow(_, collector, waited) => r.collector == Some(collector) && r.status == ARRIVED && waited
    case RejectOnSite(_, collector, valid) => r.collector == Some(collector) && r.status == ARRIVED && valid
    case CompleteIfActive(_, _) => CanVerifyPin(r.status)
    case PendingTimeout(_) => r.status == PENDING
    case InactivityTimeout(_) => r.status == ACCEPTED && !r.onRoute
    case ArrivedTimeout(_) => r.status == ARRIVED
  }

  ghost predicate Admits(db: Db, c: Call) {
    if c.Create? then c.id !in db.requests && !HouseholdIsBusy(db, c.household) && c.valid
    else c.id in db.requests && AdmitsRow(db, c, db.requests[c.id])
  }

  /** The bid table after an admitted call. */
  function Bids(c: Call, bids: map<BidId, Bid>): map<BidId, Bid> {
    match c
    case SubmitBid(id, center, rates, _, found, newBid) =>
      if found.Some? then
        if found.value in bids then bids[found.value := bids[found.value].(rates := rates, status := OFFERED)] else bids
      else bids[newBid := Bid(id, center, rates, OFFERED)]
    case WithdrawBid(_, _, found) =>
      if found.Some? && found.value in bids then bids[found.value := bids[found.value].(status := WITHDRAWN)] else bids
    case SelectBid(id, _, chosen) =>
      map b | b in bids :: if b == chosen then bids[b].(status := CHOSEN)
                           else if bids[b].request == id then bids[b].(status := REJECTED) else bids[b]
    case ExpireAuction(id) =>
      map b | b in bids :: if bids[b].request == id && bids[b].status == OFFERED
                           then bids[b].(status := EXPIRED) else bids[b]
    case _ => bids
  }

  /** A row to start from when the call creates it. */
  const NO_ROW := Request(0, PENDING, AUTOMATIC, map[], None, None, None, 0, None, false)

  function Before(db: Db, c: Call): Request { if c.id in db.requests then db.requests[c.id] else NO_ROW }

  /** A rejected call changes nothing. */
  ghost function Apply(db: Db, c: Call): Db {
    if Admits(db, c)
    then Db(db.requests[c.id := Row(c, Before(db, c), db.bids)], Bids(c, db.bids))
    else db
  }

  ghost function Exec(calls: seq<Call>): Db {
    if calls == [] then EMPTY_DB else Apply(Exec(calls[..|calls| - 1]), calls[|calls| - 1])
  }
}
