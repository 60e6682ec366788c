/** The EcoToken registry contract: storage, entry points and their meaning.

    Every entry point is a function from the stored state to an outcome. A
    panic reverts the whole call, so `Panic` carries no state. The build turns
    overflow checks on, so arithmetic leaving the 128-bit range is a panic too. */
module Ledger {
  import opened Wrappers
  import opened Sums

  predicate InI128(x: int) {
    -0x8000_0000_0000_0000_0000_0000_0000_0000 <= x < 0x8000_0000_0000_0000_0000_0000_0000_0000
  }

  type i128 = x: int | InI128(x)

  datatype Address = Address(id: nat)
  datatype BatchId = BatchId(bytes: nat)

  datatype BatchRecord = BatchRecord(timestamp: nat, totalReward: i128, recipients: nat)

  /** Contract storage. A missing balance, allowance, nonce or supply reads as zero. */
  datatype Store = Store(
    owner: Option<Address>,
    worker: Option<Address>,
    supply: i128,
    balances: map<Address, i128>,
    allowances: map<(Address, Address), i128>,
    nonces: map<Address, i128>,
    processed: set<BatchId>,
    details: map<BatchId, BatchRecord>,
    rates: map<string, i128>,
    defaultRate: Option<i128>,
    collectorBps: Option<i128>)

  const EMPTY := Store(None, None, 0, map[], map[], map[], {}, map[], map[], None, None)

  const BPS_DENOMINATOR := 10_000
  const ONE_ECO: i128 := 10_000_000
  const U32_MAX := 0xFFFF_FFFF

  const PRESETS: map<string, i128> := map[
    "PET" := 10 * ONE_ECO, "CARTON" := 5 * ONE_ECO, "VIDRIO" := 3 * ONE_ECO, "PLASTICO" := 10 * ONE_ECO,
    "ALUMINIO" := 15 * ONE_ECO, "TETRAPAK" := 4 * ONE_ECO, "PAPEL" := 5 * ONE_ECO]

  datatype Outcome = Ok(store: Store) | Panic

  /** Division that rounds toward zero, as the contract's integers do. */
  function TruncDiv(a: int, b: int): int
    requires b > 0
  {
    if a >= 0 then a / b else -((-a) / b)
  }

  function Balance(s: Store, a: Address): i128 { if a in s.balances then s.balances[a] else 0 }

  function Allowance(s: Store, from: Address, spender: Address): i128 {
    if (from, spender) in s.allowances then s.allowances[(from, spender)] else 0
  }

  function Nonce(s: Store, a: Address): i128 { if a in s.nonces then s.nonces[a] else 0 }

  function EffectiveRate(s: Store, code: string): i128 {
    if code in s.rates then s.rates[code]
    else if s.defaultRate.Some? then s.defaultRate.value else 0
  }

  function EffectiveBps(s: Store): i128 { if s.collectorBps.Some? then s.collectorBps.value else 2_000 }

  /** The owner or the worker calls, and the host has checked the caller's signature. */
  predicate Privileged(s: Store, caller: Address, auth: bool) {
    s.owner.Some? && s.worker.Some? && (caller == s.owner.value || caller == s.worker.value) && auth
  }

  function MintTo(s: Store, to: Address, amount: i128): Outcome {
    if InI128(Balance(s, to) + amount) && InI128(s.supply + amount)
    then Ok(s.(balances := s.balances[to := Balance(s, to) + amount], supply := s.supply + amount))
    else Panic
  }

  /** Both balances are read before either is written. */
  function Move(s: Store, from: Address, to: Address, amount: i128): Outcome {
    if amount <= 0 || Balance(s, from) < amount || !InI128(Balance(s, to) + amount)
       || !InI128(Balance(s, from) - amount) then Panic
    else Ok(s.(balances := s.balances[from := Balance(s, from) - amount][to := Balance(s, to) + amount]))
  }

  datatype Credit = Credit(to: Address, amount: i128)

  /** Minting a list of credits in order; one panic discards them all. */
  function MintAll(s: Store, credits: seq<Credit>): Outcome {
    if credits == [] then Ok(s)
    else
      var last := |credits| - 1;
      match MintAll(s, credits[..last])
      case Panic => Panic
      case Ok(t) => MintTo(t, credits[last].to, credits[last].amount)
  }

  function Zip(recipients: seq<Address>, amounts: seq<i128>): (r: seq<Credit>)
    requires |recipients| == |amounts|
  {
    seq(|recipients|, i requires 0 <= i < |recipients| => Credit(recipients[i], amounts[i]))
  }

  function Evenly(households: seq<Address>, each: i128): seq<Credit> {
    seq(|households|, i requires 0 <= i < |households| => Credit(households[i], each))
  }

  /** Sum of the amounts, or None once a partial sum leaves the 128-bit range. */
  function CheckedTotal(amounts: seq<i128>): Option<i128> {
    if amounts == [] then Some(0)
    else
      var last := |amounts| - 1;
      match CheckedTotal(amounts[..last])
      case None => None
      case Some(t) => if InI128(t + amounts[last]) then Some(t + amounts[last]) else None
  }

  /** Reward for weighed materials, each line truncated on its own. */
  function RewardTotal(s: Store, codes: seq<string>, weights: seq<i128>): Option<i128>
    requires |codes| == |weights|
  {
    if codes == [] then Some(0)
    else
      var last := |codes| - 1;
      match RewardTotal(s, codes[..last], weights[..last])
      case None => None
      case Some(t) =>
        var product := weights[last] * EffectiveRate(s, codes[last]);
        if InI128(product) && InI128(t + TruncDiv(product, 1000)) then Some(t + TruncDiv(product, 1000)) else None
  }

  datatype Shares = Shares(perHousehold: int, collector: int)

  /** The split of a reward between the collector and n households. */
  function Split(total: int, bps: int, n: nat): Shares {
    var base := TruncDiv(total * bps, BPS_DENOMINATOR);
    if n == 0 then Shares(0, total)
    else
      var rest := total - base;
      var each := TruncDiv(rest, n);
      Shares(each, base + (rest - each * n))
  }

  function WeighedCredits(shares: Shares, households: seq<Address>, collector: Address): seq<Credit>
    requires InI128(shares.perHousehold) && InI128(shares.collector)
  {
    (if shares.perHousehold > 0 then Evenly(households, shares.perHousehold) else [])
    + (if shares.collector > 0 then [Credit(collector, shares.collector)] else [])
  }

  function Record(s: Store, id: BatchId, record: BatchRecord): Store {
    s.(processed := s.processed + {id}, details := s.details[id := record])
  }

  /** Entry points with their arguments. `auth` is the host's answer to require_auth;
      `keyMatches` and `signed` are the host's answers to the two Ed25519 checks. */
  datatype Call =
    | Init(initOwner: Address, initWorker: Address)
    | SetWorker(caller: Address, auth: bool, newWorker: Address)
    | SetRate(caller: Address, auth: bool, code: string, rate: i128)
    | Approve(from: Address, auth: bool, spender: Address, amount: i128)
    | Transfer(from: Address, auth: bool, to: Address, amount: i128)
    | TransferFrom(spender: Address, auth: bool, from: Address, to: Address, amount: i128)
    | Delegated(caller: Address, auth: bool, keyMatches: bool, signed: bool,
                from: Address, to: Address, amount: i128, nonce: i128)
    | Mint(caller: Address, auth: bool, to: Address, amount: i128)
    | Register(caller: Address, auth: bool, id: BatchId, now: nat, recipients: seq<Address>, amounts: seq<i128>)
    | RegisterWeighed(caller: Address, auth: bool, id: BatchId, now: nat, collector: Address,
                      households: seq<Address>, codes: seq<string>, weights: seq<i128>)
    | Notarize(caller: Address, auth: bool, id: BatchId, now: nat)

  function ApplyInit(s: Store, owner: Address, worker: Address): Outcome {
    if s.owner.Some? then Panic
    else Ok(s.(owner := Some(owner), worker := Some(worker), defaultRate := Some(5 * ONE_ECO),
               collectorBps := Some(2_000), rates := s.rates + PRESETS))
  }

  function ApplyTransferFrom(s: Store, spender: Address, from: Address, to: Address, amount: i128): Outcome {
    var allowed := Allowance(s, from, spender);
    if allowed < amount || !InI128(allowed - amount) then Panic
    else Move(s.(allowances := s.allowances[(from, spender) := allowed - amount]), from, to, amount)
  }

  function ApplyDelegated(s: Store, signed: bool, from: Address, to: Address, amount: i128, nonce: i128): Outcome {
    if nonce != Nonce(s, from) || !InI128(Nonce(s, from) + 1) || !signed then Panic
    else Move(s.(nonces := s.nonces[from := Nonce(s, from) + 1]), from, to, amount)
  }

  function ApplyRegister(s: Store, id: BatchId, now: nat, recipients: seq<Address>, amounts: seq<i128>): Outcome {
    if id in s.processed || |recipients| != |amounts| || |recipients| == 0 then Panic
    else
      match (MintAll(s, Zip(recipients, amounts)), CheckedTotal(amounts))
      case (Ok(t), Some(total)) => Ok(Record(t, id, BatchRecord(now, total, |recipients|)))
      case _ => Panic
  }

  function ApplyWeighed(s: Store, id: BatchId, now: nat, collector: Address, households: seq<Address>,
                        codes: seq<string>, weights: seq<i128>): Outcome
  {
    if id in s.processed || |codes| != |weights| || |codes| == 0 then Panic
    else
      match RewardTotal(s, codes, weights)
      case None => Panic
      case Some(total) =>
        if total == 0 || !InI128(total * EffectiveBps(s)) || |households| + 1 > U32_MAX then Panic
        else
          var shares := Split(total, EffectiveBps(s), |households|);
          if !InI128(shares.perHousehold) || !InI128(shares.collector) then Panic
          else
            match MintAll(s, WeighedCredits(shares, households, collector))
            case Panic => Panic
            case Ok(t) => Ok(Record(t, id, BatchRecord(now, total, |households| + 1)))
  }

  function Apply(s: Store, c: Call): Outcome {
    match c
    case Init(o, w) => ApplyInit(s, o, w)
    case SetWorker(caller, auth, w) =>
      if Privileged(s, caller, auth) then Ok(s.(worker := Some(w))) else Panic
    case SetRate(caller, auth, code, rate) =>
      if Privileged(s, caller, auth) then Ok(s.(rates := s.rates[code := rate])) else Panic
    case Approve(from, auth, spender, amount) =>
      if auth then Ok(s.(allowances := s.allowances[(from, spender) := amount])) else Panic
    case Transfer(from, auth, to, amount) =>
      if auth then Move(s, from, to, amount) else Panic
    case TransferFrom(spender, auth, from, to, amount) =>
      if auth then ApplyTransferFrom(s, spender, from, to, amount) else Panic
    case Delegated(caller, auth, keyMatches, signed, from, to, amount, nonce) =>
      if Privileged(s, caller, auth) && keyMatches then ApplyDelegated(s, signed, from, to, amount, nonce) else Panic
    case Mint(caller, auth, to, amount) =>
      if Privileged(s, caller, auth) then MintTo(s, to, amount) else Panic
    case Register(caller, auth, id, now, recipients, amounts) =>
      if Privileged(s, caller, auth) then ApplyRegister(s, id, now, recipients, amounts) else Panic
    case RegisterWeighed(caller, auth, id, now, collector, households, codes, weights) =>
      if Privileged(s, caller, auth)
      then ApplyWeighed(s, id, now, collector, households, codes, weights) else Panic
    case Notarize(caller, auth, id, now) =>
      if Privileged(s, caller, auth) && id !in s.processed then Ok(Record(s, id, BatchRecord(now, 0, 1))) else Panic
  }

  /** A failed call leaves storage untouched. */
  function Step(s: Store, c: Call): Store {
    match Apply(s, c) case Ok(t) => t case Panic => s
  }

  /** The storage after a sequence of calls on a freshly deployed contract. */
  function Exec(calls: seq<Call>): Store {
    if calls == [] then EMPTY
    else Step(Exec(calls[..|calls| - 1]), calls[|calls| - 1])
  }

  /** Whether the i-th call of a run succeeded. */
  predicate Succeeded(calls: seq<Call>, i: nat)
    requires i < |calls|
  {
    Apply(Exec(calls[..i]), calls[i]).Ok?
  }
}
