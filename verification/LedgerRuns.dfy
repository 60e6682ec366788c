/** What every run of the EcoToken registry keeps: conservation, the supply
    history, batch uniqueness, and authorisations spent exactly. */
module LedgerRuns {
  import opened Wrappers
  import opened Sums
  import opened Ledger

  // ---------- Minting ----------

  function TotalOf(credits: seq<Credit>): int {
    if credits == [] then 0 else TotalOf(credits[..|credits| - 1]) + credits[|credits| - 1].amount
  }

  function Received(credits: seq<Credit>, a: Address): int {
    if credits == [] then 0
    else
      var c := credits[|credits| - 1];
      Received(credits[..|credits| - 1], a) + if c.to == a then c.amount else 0
  }

  /** Minting a list credits every address with exactly what the list gives it. */
  lemma {:induction false} MintAllEffect(s: Store, credits: seq<Credit>)
    requires MintAll(s, credits).Ok?
    ensures var t := MintAll(s, credits).store;
      && t == s.(balances := t.balances, supply := t.supply)
      && t.supply == s.supply + TotalOf(credits)
      && Sum(t.balances) == Sum(s.balances) + TotalOf(credits)
      && forall a :: Balance(t, a) == Balance(s, a) + Received(credits, a)
  {
    if credits != [] {
      var last := |credits| - 1;
      MintAllEffect(s, credits[..last]);
      var t := MintAll(s, credits[..last]).store;
      SumUpdate(t.balances, credits[last].to, Balance(t, credits[last].to) + credits[last].amount);
    }
  }

  lemma {:induction false} CreditsOfConcat(xs: seq<Credit>, ys: seq<Credit>, a: Address)
    ensures TotalOf(xs + ys) == TotalOf(xs) + TotalOf(ys)
    ensures Received(xs + ys, a) == Received(xs, a) + Received(ys, a)
  {
    if ys == [] {
      assert xs + ys == xs;
    } else {
      var front := ys[..|ys| - 1];
      assert (xs + ys)[..|xs + ys| - 1] == xs + front;
      CreditsOfConcat(xs, front, a);
    }
  }

  lemma TimesSucc(x: int, k: nat)
    ensures x * (k + 1) == x * k + x
  {
  }

  lemma {:induction false} EvenlyTotal(households: seq<Address>, each: i128)
    ensures TotalOf(Evenly(households, each)) == each * |households|
  {
    if households != [] {
      var front := households[..|households| - 1];
      assert Evenly(households, each)[..|front|] == Evenly(front, each);
      EvenlyTotal(front, each);
      TimesSucc(each, |front|);
    }
  }

  lemma CountLast(households: seq<Address>, a: Address)
    requires households != []
    ensures var n := |households| - 1;
      multiset(households)[a] == multiset(households[..n])[a] + if households[n] == a then 1 else 0
  {
    var n := |households| - 1;
    assert households == households[..n] + [households[n]];
  }

  lemma {:induction false} EvenlyReceived(households: seq<Address>, each: i128, a: Address)
    ensures Received(Evenly(households, each), a) == each * multiset(households)[a]
  {
    if households != [] {
      var n := |households| - 1;
      assert Evenly(households, each)[..n] == Evenly(households[..n], each);
      EvenlyReceived(households[..n], each, a);
      CountLast(households, a);
      TimesSucc(each, multiset(households[..n])[a]);
    }
  }

  lemma {:induction false} CreditsZipped(recipients: seq<Address>, amounts: seq<i128>)
    requires |recipients| == |amounts|
    requires CheckedTotal(amounts).Some?
    ensures TotalOf(Zip(recipients, amounts)) == CheckedTotal(amounts).value
  {
    if amounts != [] {
      var last := |amounts| - 1;
      assert Zip(recipients, amounts)[..last] == Zip(recipients[..last], amounts[..last]);
      CreditsZipped(recipients[..last], amounts[..last]);
    }
  }

  // ---------- The 80/20 split ----------

  lemma ProductGrows(q: nat, b: int)
    requires b > 0
    ensures q <= q * b
  {
  }

  lemma DivBounds(m: nat, b: int)
    requires b > 0
    ensures 0 <= m / b <= m && 0 <= m - (m / b) * b < b
  {
    var q, r := m / b, m % b;
    assert m == q * b + r;
    ProductGrows(q, b);
  }

  lemma TruncDivBounds(a: int, b: int)
    requires b > 0
    ensures a >= 0 ==> 0 <= TruncDiv(a, b) <= a && 0 <= a - TruncDiv(a, b) * b < b
    ensures a <= 0 ==> a <= TruncDiv(a, b) <= 0 && -b < a - TruncDiv(a, b) * b <= 0
  {
    if a >= 0 {
      DivBounds(a, b);
    } else {
      DivBounds(-a, b);
      var q := (-a) / b;
      assert (-q) * b == -(q * b);
    }
  }

  /** Shares of a positive reward: they add up to it exactly, and rounding favours the collector by less than n. */
  lemma SplitExact(total: int, n: nat)
    requires total > 0
    ensures var shares := Split(total, 2_000, n);
      && 0 <= shares.perHousehold <= total && 0 <= shares.collector <= total
      && shares.perHousehold * n + shares.collector == total
      && (n == 0 ==> shares.collector == total)
      && (n > 0 ==> total * 2_000 / 10_000 <= shares.collector <= total * 2_000 / 10_000 + n - 1)
  {
    if n > 0 {
      var rest := total - TruncDiv(total * 2_000, BPS_DENOMINATOR);
      TruncDivBounds(rest, n);
      assert 0 <= TruncDiv(rest, n) * n;
    }
  }

  /** A negative reward mints nothing: both shares come out non-positive. */
  lemma SplitNegative(total: int, n: nat)
    requires total < 0
    ensures total <= Split(total, 2_000, n).perHousehold <= 0
    ensures total <= Split(total, 2_000, n).collector <= 0
  {
    if n > 0 {
      var rest := total - TruncDiv(total * 2_000, BPS_DENOMINATOR);
      TruncDivBounds(rest, n);
      assert TruncDiv(rest, n) * n <= 0;
    }
  }

  lemma LineBounds(weight: int, rate: int)
    requires weight >= 0 && rate >= 0
    ensures weight * rate - 999 <= 1000 * TruncDiv(weight * rate, 1000) <= weight * rate
  {
    var product := weight * rate;
    assert product >= 0;
  }

  lemma {:induction false} RewardBounds(s: Store, codes: seq<string>, weights: seq<i128>)
    requires |codes| == |weights|
    requires RewardTotal(s, codes, weights).Some?
    requires forall i :: 0 <= i < |codes| ==> weights[i] >= 0 && EffectiveRate(s, codes[i]) >= 0
    ensures ExactReward(s, codes, weights) - 999 * |codes|
         <= 1000 * RewardTotal(s, codes, weights).value
         <= ExactReward(s, codes, weights)
  {
    if codes != [] {
      var last := |codes| - 1;
      RewardBounds(s, codes[..last], weights[..last]);
      LineBounds(weights[last], EffectiveRate(s, codes[last]));
    }
  }

  /** The untruncated reward, in thousandths of a stroop. */
  function ExactReward(s: Store, codes: seq<string>, weights: seq<i128>): int
    requires |codes| == |weights|
  {
    if codes == [] then 0
    else
      var last := |codes| - 1;
      ExactReward(s, codes[..last], weights[..last]) + weights[last] * EffectiveRate(s, codes[last])
  }

  /** A successful weighed registration mints one list of credits and records one total. */
  lemma WeighedUnfolds(s: Store, c: Call) returns (total: i128, credits: seq<Credit>)
    requires c.RegisterWeighed? && Apply(s, c).Ok?
    ensures |c.codes| == |c.weights| && RewardTotal(s, c.codes, c.weights) == Some(total) && total != 0
    ensures c.id !in s.processed
    ensures var shares := Split(total, EffectiveBps(s), |c.households|);
      && InI128(shares.perHousehold) && InI128(shares.collector)
      && credits == WeighedCredits(shares, c.households, c.collector)
    ensures MintAll(s, credits).Ok?
    ensures Apply(s, c).store
         == Record(MintAll(s, credits).store, c.id, BatchRecord(c.now, total, |c.households| + 1))
  {
    total := RewardTotal(s, c.codes, c.weights).value;
    credits := WeighedCredits(Split(total, EffectiveBps(s), |c.households|), c.households, c.collector);
  }

  lemma WeighedCreditsArePositive(shares: Shares, households: seq<Address>, collector: Address)
    requires InI128(shares.perHousehold) && InI128(shares.collector)
    ensures var credits := WeighedCredits(shares, households, collector);
      forall i :: 0 <= i < |credits| ==> credits[i].amount > 0
  {
  }

  /** A weighed registration with a positive reward, told address by address. */
  lemma WeighedPaysExactly(s: Store, c: Call)
    requires c.RegisterWeighed? && Apply(s, c).Ok? && EffectiveBps(s) == 2_000
    requires c.id in Apply(s, c).store.details && Apply(s, c).store.details[c.id].totalReward > 0
    ensures
      var t := Apply(s, c).store;
      var total := t.details[c.id].totalReward;
      var n := |c.households|;
      var shares := Split(total, 2_000, n);
      && (forall a :: Balance(t, a) == Balance(s, a) + shares.perHousehold * multiset(c.households)[a]
                                       + (if a == c.collector then shares.collector else 0))
      && shares.perHousehold * n + shares.collector == total
      && t.supply == s.supply + total
      && (if n == 0 then shares.collector == total
          else total * 2_000 / 10_000 <= shares.collector <= total * 2_000 / 10_000 + n - 1)
  {
    var total, credits := WeighedUnfolds(s, c);
    var shares := Split(total, 2_000, |c.households|);
    SplitExact(total, |c.households|);
    MintAllEffect(s, credits);
    WeighedCreditsAddUp(shares, c.households, c.collector, c.collector);
    var t := Apply(s, c).store;
    forall a
      ensures Balance(t, a) == Balance(s, a) + shares.perHousehold * multiset(c.households)[a]
                               + (if a == c.collector then shares.collector else 0)
    {
      WeighedCreditsAddUp(shares, c.households, c.collector, a);
      assert Balance(t, a) == Balance(MintAll(s, credits).store, a);
    }
  }

  /** With non-negative weights and rates the recorded total misses the exact reward by less than one stroop a line. */
  lemma WeighedRewardIsAccurate(s: Store, c: Call)
    requires c.RegisterWeighed? && Apply(s, c).Ok?
    requires |c.codes| == |c.weights|
    requires forall i :: 0 <= i < |c.codes| ==> c.weights[i] >= 0 && EffectiveRate(s, c.codes[i]) >= 0
    ensures c.id in Apply(s, c).store.details
    ensures var total := Apply(s, c).store.details[c.id].totalReward;
      ExactReward(s, c.codes, c.weights) - 999 * |c.codes| <= 1000 * total <= ExactReward(s, c.codes, c.weights)
  {
    var total, credits := WeighedUnfolds(s, c);
    RewardBounds(s, c.codes, c.weights);
  }

  lemma WeighedCreditsAddUp(shares: Shares, households: seq<Address>, collector: Address, a: Address)
    requires InI128(shares.perHousehold) && InI128(shares.collector)
    requires 0 <= shares.perHousehold && 0 <= shares.collector
    ensures var credits := WeighedCredits(shares, households, collector);
      && TotalOf(credits) == shares.perHousehold * |households| + shares.collector
      && Received(credits, a) == shares.perHousehold * multiset(households)[a]
                                 + (if a == collector then shares.collector else 0)
  {
    var hs := if shares.perHousehold > 0 then Evenly(households, shares.perHousehold) else [];
    var cs := if shares.collector > 0 then [Credit(collector, shares.collector)] else [];
    HouseholdCredits(shares.perHousehold, households, a);
    CreditsOfConcat(hs, cs, a);
    assert TotalOf(cs) == shares.collector && Received(cs, a) == if a == collector then shares.collector else 0 by {
      if cs != [] { assert cs[..0] == []; }
    }
  }

  lemma HouseholdCredits(each: i128, households: seq<Address>, a: Address)
    requires 0 <= each
    ensures var hs := if each > 0 then Evenly(households, each) else [];
      TotalOf(hs) == each * |households| && Received(hs, a) == each * multiset(households)[a]
  {
    if each > 0 {
      EvenlyTotal(households, each);
      EvenlyReceived(households, each, a);
    }
  }

  /** A plain batch pays every recipient the amounts listed for it, and records exactly what it minted. */
  lemma RegisterPaysExactly(s: Store, c: Call)
    requires c.Register? && Apply(s, c).Ok?
    ensures |c.recipients| == |c.amounts| > 0
    ensures var t := Apply(s, c).store;
      && (forall a :: Balance(t, a) == Balance(s, a) + Received(Zip(c.recipients, c.amounts), a))
      && c.id in t.details && t.details[c.id].totalReward == t.supply - s.supply
  {
    var credits := Zip(c.recipients, c.amounts);
    MintAllEffect(s, credits);
    CreditsZipped(c.recipients, c.amounts);
    forall a ensures Balance(Apply(s, c).store, a) == Balance(s, a) + Received(credits, a) {
      assert Balance(Apply(s, c).store, a) == Balance(MintAll(s, credits).store, a);
    }
  }

  // ---------- What one call does to supply and balances ----------

  /** What a successful call adds to the recorded supply. */
  function Issued(s: Store, c: Call): int {
    if Apply(s, c).Panic? then 0
    else if c.Mint? then c.amount
    else if c.Register? then Apply(s, c).store.details[c.id].totalReward
    else if c.RegisterWeighed? && Apply(s, c).store.details[c.id].totalReward > 0
    then Apply(s, c).store.details[c.id].totalReward
    else 0
  }

  predicate IsMove(c: Call) { c.Transfer? || c.TransferFrom? || c.Delegated? }

  /** The amount of a successful transfer from an address to itself. */
  function SelfMoved(s: Store, c: Call): int {
    if Apply(s, c).Ok? && IsMove(c) && c.from == c.to then c.amount else 0
  }

  lemma MoveEffect(s: Store, from: Address, to: Address, amount: i128)
    requires Move(s, from, to, amount).Ok?
    ensures var t := Move(s, from, to, amount).store;
      && amount > 0
      && t == s.(balances := t.balances)
      && Sum(t.balances) == Sum(s.balances) + (if from == to then amount else 0)
      && Balance(t, to) == Balance(s, to) + amount
      && (from != to ==> Balance(t, from) == Balance(s, from) - amount >= 0)
      && forall a :: a != from && a != to ==> Balance(t, a) == Balance(s, a)
  {
    var mid := s.balances[from := Balance(s, from) - amount];
    SumUpdate(s.balances, from, Balance(s, from) - amount);
    SumUpdate(mid, to, Balance(s, to) + amount);
  }

  /** The three transfer entry points differ only in the authorisation they spend first. */
  lemma MoveCall(s: Store, c: Call) returns (s1: Store)
    requires IsMove(c) && Apply(s, c).Ok?
    ensures s1 == s.(allowances := s1.allowances, nonces := s1.nonces)
    ensures Apply(s, c) == Move(s1, c.from, c.to, c.amount)
  {
    match c
    case Transfer(_, _, _, _) => s1 := s;
    case TransferFrom(spender, _, from, _, amount) =>
      s1 := s.(allowances := s.allowances[(from, spender) := Allowance(s, from, spender) - amount]);
    case Delegated(_, _, _, _, from, _, _, _) => s1 := s.(nonces := s.nonces[from := Nonce(s, from) + 1]);
  }

  lemma WeighedIssues(s: Store, c: Call)
    requires c.RegisterWeighed? && Apply(s, c).Ok? && EffectiveBps(s) == 2_000
    ensures var t := Apply(s, c).store;
      && t.supply == s.supply + Issued(s, c)
      && Sum(t.balances) == Sum(s.balances) + Issued(s, c)
      && t.details[c.id].totalReward == RewardTotal(s, c.codes, c.weights).value
  {
    var total, credits := WeighedUnfolds(s, c);
    MintAllEffect(s, credits);
    if total > 0 {
      SplitExact(total, |c.households|);
      WeighedCreditsAddUp(Split(total, 2_000, |c.households|), c.households, c.collector, c.collector);
    } else {
      SplitNegative(total, |c.households|);
      assert credits == [];
    }
  }

  lemma RegisterIssues(s: Store, c: Call)
    requires c.Register? && Apply(s, c).Ok?
    ensures var t := Apply(s, c).store;
      t.supply == s.supply + Issued(s, c) && Sum(t.balances) == Sum(s.balances) + Issued(s, c)
  {
    MintAllEffect(s, Zip(c.recipients, c.amounts));
    CreditsZipped(c.recipients, c.amounts);
  }

  lemma StepEffect(s: Store, c: Call)
    requires EffectiveBps(s) == 2_000
    ensures Step(s, c).supply == s.supply + Issued(s, c)
    ensures Sum(Step(s, c).balances) == Sum(s.balances) + Issued(s, c) + SelfMoved(s, c)
  {
    if Apply(s, c).Ok? {
      if IsMove(c) {
        var s1 := MoveCall(s, c);
        MoveEffect(s1, c.from, c.to, c.amount);
      } else if c.Mint? {
        SumUpdate(s.balances, c.to, Balance(s, c.to) + c.amount);
      } else if c.Register? {
        RegisterIssues(s, c);
      } else if c.RegisterWeighed? {
        WeighedIssues(s, c);
      }
    }
  }

  lemma {:induction false} RunBps(calls: seq<Call>)
    ensures EffectiveBps(Exec(calls)) == 2_000
  {
    if calls != [] {
      var front, c := calls[..|calls| - 1], calls[|calls| - 1];
      RunBps(front);
      StepKeepsConfig(Exec(front), c);
    }
  }

  lemma StepKeepsConfig(s: Store, c: Call)
    ensures Step(s, c).collectorBps == s.collectorBps || Step(s, c).collectorBps == Some(2_000)
  {
    if Apply(s, c).Ok? {
      if c.Register? { MintAllEffect(s, Zip(c.recipients, c.amounts)); }
      if c.RegisterWeighed? {
        var total, credits := WeighedUnfolds(s, c);
        MintAllEffect(s, credits);
      }
    }
  }

  // ---------- Conservation ----------

  /** Total of successful self-transfers in a run. */
  function SelfMovedIn(calls: seq<Call>): int {
    if calls == [] then 0
    else
      var front := calls[..|calls| - 1];
      SelfMovedIn(front) + SelfMoved(Exec(front), calls[|calls| - 1])
  }

  predicate SelfTransferAt(calls: seq<Call>, i: nat)
    requires i < |calls|
  {
    IsMove(calls[i]) && calls[i].from == calls[i].to && Succeeded(calls, i)
  }

  /** In every run, balances add up to the supply plus what was transferred to oneself. */
  lemma {:induction false} Conservation(calls: seq<Call>)
    ensures Sum(Exec(calls).balances) == Exec(calls).supply + SelfMovedIn(calls)
  {
    if calls != [] {
      var front := calls[..|calls| - 1];
      Conservation(front);
      RunBps(front);
      StepEffect(Exec(front), calls[|calls| - 1]);
    }
  }

  /** Balances add up to the supply exactly in the runs without a successful self-transfer. */
  lemma ConservedIffNoSelfTransfer(calls: seq<Call>)
    ensures Sum(Exec(calls).balances) == Exec(calls).supply
       <==> forall i :: 0 <= i < |calls| ==> !SelfTransferAt(calls, i)
  {
    Conservation(calls);
    SelfMovedSign(calls);
  }

  lemma SelfTransferInFront(calls: seq<Call>, i: nat)
    requires i + 1 < |calls|
    ensures SelfTransferAt(calls, i) == SelfTransferAt(calls[..|calls| - 1], i)
  {
    assert calls[..i] == calls[..|calls| - 1][..i];
  }

  lemma SelfTransferAtEnd(calls: seq<Call>)
    requires calls != []
    ensures var n := |calls| - 1;
      && SelfMoved(Exec(calls[..n]), calls[n]) >= 0
      && (SelfMoved(Exec(calls[..n]), calls[n]) > 0 <==> SelfTransferAt(calls, n))
  {
    var s, c := Exec(calls[..|calls| - 1]), calls[|calls| - 1];
    if IsMove(c) && Apply(s, c).Ok? {
      var s1 := MoveCall(s, c);
    }
  }

  lemma {:induction false} SelfMovedSign(calls: seq<Call>)
    ensures SelfMovedIn(calls) >= 0
    ensures SelfMovedIn(calls) == 0 <==> forall i :: 0 <= i < |calls| ==> !SelfTransferAt(calls, i)
  {
    if calls != [] {
      var n := |calls| - 1;
      var front := calls[..n];
      SelfMovedSign(front);
      SelfTransferAtEnd(calls);
      if SelfMovedIn(calls) == 0 {
        forall i | 0 <= i < |calls| ensures !SelfTransferAt(calls, i) {
          if i < n { SelfTransferInFront(calls, i); }
        }
      } else if forall i :: 0 <= i < n ==> !SelfTransferAt(front, i) {
        assert SelfTransferAt(calls, n);
      } else {
        var i :| 0 <= i < n && SelfTransferAt(front, i);
        SelfTransferInFront(calls, i);
      }
    }
  }

  /** Sending one token to oneself leaves two, with a supply of one. */
  lemma SelfTransferCreatesTokens(a: Address)
    ensures var calls := [Init(a, a), Mint(a, true, a, 1), Transfer(a, true, a, 1)];
      Exec(calls).balances == map[a := 2] && Exec(calls).supply == 1
  {
    var c1, c2, c3 := Init(a, a), Mint(a, true, a, 1), Transfer(a, true, a, 1);
    assert [c1, c2, c3][..2] == [c1, c2] && [c1, c2][..1] == [c1] && [c1][..0] == [];
    var s1 := Step(EMPTY, c1);
    assert Exec([c1]) == s1;
    assert s1.balances == map[] && s1.supply == 0 && Privileged(s1, a, true);
    var s2 := Step(s1, c2);
    assert Exec([c1, c2]) == s2;
    assert s2.balances == map[a := 1] && s2.supply == 1;
    assert Exec([c1, c2, c3]) == Step(s2, c3);
  }

  // ---------- Non-negative balances ----------

  predicate MintsNonNegative(c: Call) {
    && (c.Mint? ==> c.amount >= 0)
    && (c.Register? ==> forall i :: 0 <= i < |c.amounts| ==> c.amounts[i] >= 0)
  }

  lemma {:induction false} ReceivedNonNegative(credits: seq<Credit>, a: Address)
    requires forall i :: 0 <= i < |credits| ==> credits[i].amount >= 0
    ensures Received(credits, a) >= 0
  {
    if credits != [] { ReceivedNonNegative(credits[..|credits| - 1], a); }
  }

  lemma MintAllNonNegative(s: Store, credits: seq<Credit>)
    requires MintAll(s, credits).Ok?
    requires forall i :: 0 <= i < |credits| ==> credits[i].amount >= 0
    requires forall a :: Balance(s, a) >= 0
    ensures forall a :: Balance(MintAll(s, credits).store, a) >= 0
  {
    MintAllEffect(s, credits);
    forall a ensures Balance(MintAll(s, credits).store, a) >= 0 { ReceivedNonNegative(credits, a); }
  }

  lemma RegisterNonNegative(s: Store, c: Call)
    requires Apply(s, c).Ok? && MintsNonNegative(c)
    requires c.Register? || c.RegisterWeighed?
    requires forall a :: Balance(s, a) >= 0
    ensures forall a :: Balance(Apply(s, c).store, a) >= 0
  {
    var credits: seq<Credit>;
    if c.Register? {
      credits := Zip(c.recipients, c.amounts);
    } else {
      var total;
      total, credits := WeighedUnfolds(s, c);
      WeighedCreditsArePositive(Split(total, EffectiveBps(s), |c.households|), c.households, c.collector);
    }
    MintAllNonNegative(s, credits);
    forall a ensures Balance(Apply(s, c).store, a) >= 0 {
      assert Balance(Apply(s, c).store, a) == Balance(MintAll(s, credits).store, a);
    }
  }

  lemma MoveNonNegative(s: Store, c: Call, a: Address)
    requires IsMove(c) && Apply(s, c).Ok?
    requires Balance(s, a) >= 0 && Balance(s, c.to) >= 0
    ensures Balance(Apply(s, c).store, a) >= 0
  {
    var s1 := MoveCall(s, c);
    MoveEffect(s1, c.from, c.to, c.amount);
    assert Balance(s1, a) == Balance(s, a) && Balance(s1, c.to) == Balance(s, c.to);
  }

  lemma StepNonNegative(s: Store, c: Call)
    requires MintsNonNegative(c)
    requires forall a :: Balance(s, a) >= 0
    ensures forall a :: Balance(Step(s, c), a) >= 0
  {
    forall a
      ensures Balance(Step(s, c), a) >= 0
    {
      assert Balance(s, a) >= 0;
      if Apply(s, c).Ok? {
        if IsMove(c) {
          assert Balance(s, c.to) >= 0;
          MoveNonNegative(s, c, a);
        } else if c.Register? || c.RegisterWeighed? {
          RegisterNonNegative(s, c);
        } else if c.Mint? {
          assert Balance(s, c.to) >= 0;
        }
      }
    }
  }

  /** If no mint is negative, no balance ever is. */
  lemma {:induction false} BalancesNonNegative(calls: seq<Call>)
    requires forall i :: 0 <= i < |calls| ==> MintsNonNegative(calls[i])
    ensures forall a :: Balance(Exec(calls), a) >= 0
  {
    if calls != [] {
      BalancesNonNegative(calls[..|calls| - 1]);
      StepNonNegative(Exec(calls[..|calls| - 1]), calls[|calls| - 1]);
    }
  }

  // ---------- Batches ----------

  predicate Registers(c: Call) { c.Register? || c.RegisterWeighed? || c.Notarize? }

  /** The only call that touches the batch tables is a successful registration of a new id. */
  lemma StepBatches(s: Store, c: Call)
    ensures Registers(c) && Apply(s, c).Ok? ==>
      && c.id !in s.processed
      && Step(s, c).processed == s.processed + {c.id}
      && c.id in Step(s, c).details
      && Step(s, c).details == s.details[c.id := Step(s, c).details[c.id]]
    ensures !(Registers(c) && Apply(s, c).Ok?) ==>
      Step(s, c).processed == s.processed && Step(s, c).details == s.details
  {
    if Apply(s, c).Ok? {
      if c.Register? { MintAllEffect(s, Zip(c.recipients, c.amounts)); }
      if c.RegisterWeighed? {
        var total, credits := WeighedUnfolds(s, c);
        MintAllEffect(s, credits);
      }
    }
  }

  /** A batch has details exactly when it is processed. */
  lemma {:induction false} DetailsExactlyProcessed(calls: seq<Call>)
    ensures Exec(calls).details.Keys == Exec(calls).processed
  {
    if calls != [] {
      DetailsExactlyProcessed(calls[..|calls| - 1]);
      StepBatches(Exec(calls[..|calls| - 1]), calls[|calls| - 1]);
    }
  }

  /** Details once written stay as they are, whatever is called afterwards. */
  lemma {:induction false} DetailsNeverChange(calls: seq<Call>, i: nat, id: BatchId)
    requires i <= |calls|
    requires id in Exec(calls[..i]).processed
    ensures id in Exec(calls).processed
    ensures id in Exec(calls[..i]).details && id in Exec(calls).details
    ensures Exec(calls).details[id] == Exec(calls[..i]).details[id]
    decreases |calls|
  {
    DetailsExactlyProcessed(calls[..i]);
    if i == |calls| {
      assert calls[..i] == calls;
    } else {
      var front := calls[..|calls| - 1];
      assert front[..i] == calls[..i];
      DetailsNeverChange(front, i, id);
      StepBatches(Exec(front), calls[|calls| - 1]);
    }
  }

  /** Across the three registration entry points, an id succeeds at most once. */
  lemma BatchSucceedsOnce(calls: seq<Call>, i: nat, j: nat)
    requires i < j < |calls|
    requires Registers(calls[i]) && Registers(calls[j]) && calls[i].id == calls[j].id
    requires Succeeded(calls, i)
    ensures !Succeeded(calls, j)
  {
    var front := calls[..j];
    assert front[..i + 1] == calls[..i + 1] && calls[..i + 1][..i] == calls[..i];
    StepBatches(Exec(calls[..i]), calls[i]);
    DetailsNeverChange(front, i + 1, calls[i].id);
    StepBatches(Exec(front), calls[j]);
  }

  // ---------- Supply history ----------

  function Totals(details: map<BatchId, BatchRecord>): map<BatchId, int> {
    map id | id in details :: details[id].totalReward
  }

  function DirectMints(calls: seq<Call>): int {
    if calls == [] then 0
    else
      var front, c := calls[..|calls| - 1], calls[|calls| - 1];
      DirectMints(front) + MintPart(Exec(front), c)
  }

  /** Absolute value of the negative total a call records: recorded but never burned. */
  function NegativePart(s: Store, c: Call): nat {
    if c.RegisterWeighed? && Apply(s, c).Ok? && Apply(s, c).store.details[c.id].totalReward < 0
    then 0 - Apply(s, c).store.details[c.id].totalReward else 0
  }

  /** A successful weighed registration whose total is negative. */
  predicate NegativeWeighedAt(calls: seq<Call>, i: nat)
    requires i < |calls|
  {
    NegativePart(Exec(calls[..i]), calls[i]) > 0
  }

  function NegativeRecorded(calls: seq<Call>): int {
    if calls == [] then 0
    else
      var n := |calls| - 1;
      NegativeRecorded(calls[..n]) + NegativePart(Exec(calls[..n]), calls[n])
  }

  /** Whether a successful weighed registration records a negative total shows before the call, in its weights
      and rates. */
  lemma NegativeShowsInAdvance(s: Store, c: Call)
    requires c.RegisterWeighed? && Apply(s, c).Ok?
    ensures |c.codes| == |c.weights| && RewardTotal(s, c.codes, c.weights).Some?
    ensures NegativePart(s, c) > 0 <==> RewardTotal(s, c.codes, c.weights).value < 0
  {
    var total, credits := WeighedUnfolds(s, c);
  }

  function MintPart(s: Store, c: Call): int { if c.Mint? && Apply(s, c).Ok? then c.amount else 0 }

  function RecordedPart(s: Store, c: Call): int {
    if Registers(c) && Apply(s, c).Ok? then Apply(s, c).store.details[c.id].totalReward else 0
  }

  lemma IssuedParts(s: Store, c: Call)
    ensures Issued(s, c) == MintPart(s, c) + RecordedPart(s, c) + NegativePart(s, c)
  {
  }

  /** A registration adds its recorded total to the records. */
  lemma RecordsMove(s: Store, c: Call)
    requires s.details.Keys == s.processed
    ensures Sum(Totals(Step(s, c).details)) == Sum(Totals(s.details)) + RecordedPart(s, c)
  {
    StepBatches(s, c);
    var after := Step(s, c).details;
    if Registers(c) && Apply(s, c).Ok? {
      assert Totals(after) == Totals(s.details)[c.id := after[c.id].totalReward];
      SumUpdate(Totals(s.details), c.id, after[c.id].totalReward);
    }
  }

  /** The supply is the direct mints, plus every recorded batch reward, plus the negative rewards never burned. */
  lemma {:induction false} SupplyHistory(calls: seq<Call>)
    ensures Exec(calls).supply
         == DirectMints(calls) + Sum(Totals(Exec(calls).details)) + NegativeRecorded(calls)
  {
    if calls == [] {
      assert Totals(EMPTY.details) == map[];
    } else {
      var front := calls[..|calls| - 1];
      SupplyHistory(front);
      RunBps(front);
      DetailsExactlyProcessed(front);
      StepEffect(Exec(front), calls[|calls| - 1]);
      IssuedParts(Exec(front), calls[|calls| - 1]);
      RecordsMove(Exec(front), calls[|calls| - 1]);
    }
  }

  lemma {:induction false} NegativeRecordedSign(calls: seq<Call>)
    ensures NegativeRecorded(calls) >= 0
    ensures NegativeRecorded(calls) == 0 <==> forall i :: 0 <= i < |calls| ==> !NegativeWeighedAt(calls, i)
  {
    if calls != [] {
      var n := |calls| - 1;
      var front := calls[..n];
      NegativeRecordedSign(front);
      forall i | 0 <= i < n
        ensures NegativeWeighedAt(calls, i) == NegativeWeighedAt(front, i)
      {
        assert calls[..i] == front[..i];
      }
      assert NegativeWeighedAt(calls, n) <==> NegativePart(Exec(front), calls[n]) > 0;
    }
  }

  /** Supply equals direct mints plus recorded rewards exactly when no weighed batch had a negative total. */
  lemma SupplyMatchesRecordsIff(calls: seq<Call>)
    ensures Exec(calls).supply == DirectMints(calls) + Sum(Totals(Exec(calls).details))
       <==> forall i :: 0 <= i < |calls| ==> !NegativeWeighedAt(calls, i)
  {
    SupplyHistory(calls);
    NegativeRecordedSign(calls);
  }

  /** One weighed batch of minus one kilogram of PET: its negative reward goes on record, and nothing is burned. */
  lemma NegativeBatchBurnsNothing(a: Address, id: BatchId)
    ensures var s := Exec([Init(a, a), RegisterWeighed(a, true, id, 0, a, [], ["PET"], [-1000])]);
      && id in s.details && s.details[id].totalReward == -100_000_000
      && s.supply == 0 && s.balances == map[]
      && DirectMints([Init(a, a), RegisterWeighed(a, true, id, 0, a, [], ["PET"], [-1000])]) == 0
  {
    var first, second := Init(a, a), RegisterWeighed(a, true, id, 0, a, [], ["PET"], [-1000]);
    assert [first, second][..1] == [first] && [first][..0] == [];
    var s := Step(EMPTY, first);
    assert Exec([first]) == s;
    assert EffectiveBps(s) == 2_000 && Privileged(s, a, true) && s.rates == map[] + PRESETS;
    assert EffectiveRate(s, "PET") == 10 * ONE_ECO;
    assert ["PET"][..0] == [] && [-1000][..0] == [];
    assert RewardTotal(s, ["PET"], [-1000]) == Some(-10 * ONE_ECO);
    assert Split(-10 * ONE_ECO, 2_000, 0) == Shares(0, -10 * ONE_ECO);
    assert Apply(s, second) == Ok(Record(s, id, BatchRecord(0, -10 * ONE_ECO, 1)));
    assert DirectMints([first]) == DirectMints([]) == 0;
  }

  // ---------- Authorisations ----------

  function DelegatedCount(calls: seq<Call>, a: Address): nat {
    if calls == [] then 0
    else
      var front, c := calls[..|calls| - 1], calls[|calls| - 1];
      DelegatedCount(front, a) + if c.Delegated? && c.from == a && Apply(Exec(front), c).Ok? then 1 else 0
  }

  lemma StepAuthorisations(s: Store, c: Call)
    ensures forall a ::
      Nonce(Step(s, c), a) == Nonce(s, a) + (if c.Delegated? && c.from == a && Apply(s, c).Ok? then 1 else 0)
    ensures !(c.Approve? || c.TransferFrom?) ==> Step(s, c).allowances == s.allowances
  {
    if Apply(s, c).Ok? {
      if c.Register? { MintAllEffect(s, Zip(c.recipients, c.amounts)); }
      if c.RegisterWeighed? {
        var total, credits := WeighedUnfolds(s, c);
        MintAllEffect(s, credits);
      }
    }
  }

  /** The stored nonce counts the successful delegated transfers; failed calls do not consume it. */
  lemma {:induction false} NonceCountsDelegated(calls: seq<Call>, a: Address)
    ensures Nonce(Exec(calls), a) == DelegatedCount(calls, a)
  {
    if calls != [] {
      NonceCountsDelegated(calls[..|calls| - 1], a);
      StepAuthorisations(Exec(calls[..|calls| - 1]), calls[|calls| - 1]);
    }
  }

  lemma {:induction false} DelegatedCountMonotone(calls: seq<Call>, i: nat, a: Address)
    requires i <= |calls|
    ensures DelegatedCount(calls[..i], a) <= DelegatedCount(calls, a)
    decreases |calls|
  {
    if i < |calls| {
      assert calls[..|calls| - 1][..i] == calls[..i];
      DelegatedCountMonotone(calls[..|calls| - 1], i, a);
    } else {
      assert calls[..i] == calls;
    }
  }

  /** A sender's nonces are used in strictly increasing order, so each pair works at most once. */
  lemma DelegatedNonceUsedOnce(calls: seq<Call>, i: nat, j: nat)
    requires i < j < |calls|
    requires calls[i].Delegated? && calls[j].Delegated? && calls[i].from == calls[j].from
    requires Succeeded(calls, i) && Succeeded(calls, j)
    ensures calls[i].nonce < calls[j].nonce
  {
    var a := calls[i].from;
    NonceCountsDelegated(calls[..i], a);
    NonceCountsDelegated(calls[..j], a);
    assert calls[..i + 1][..i] == calls[..i];
    assert calls[..j][..i + 1] == calls[..i + 1];
    DelegatedCountMonotone(calls[..j], i + 1, a);
  }

  /** Amount set by the last successful approval of the pair, zero if there was none. */
  function LastApproved(calls: seq<Call>, from: Address, spender: Address): int {
    if calls == [] then 0
    else
      var front, c := calls[..|calls| - 1], calls[|calls| - 1];
      if c.Approve? && c.from == from && c.spender == spender && Apply(Exec(front), c).Ok? then c.amount
      else LastApproved(front, from, spender)
  }

  /** Everything moved by transfer_from for the pair since that approval. */
  function SpentSince(calls: seq<Call>, from: Address, spender: Address): int {
    if calls == [] then 0
    else
      var front, c := calls[..|calls| - 1], calls[|calls| - 1];
      if Apply(Exec(front), c).Panic? then SpentSince(front, from, spender)
      else if c.Approve? && c.from == from && c.spender == spender then 0
      else if c.TransferFrom? && c.from == from && c.spender == spender
      then SpentSince(front, from, spender) + c.amount
      else SpentSince(front, from, spender)
  }

  /** Between two approvals, what is left plus what was moved is what was approved. */
  lemma {:induction false} AllowanceSpentExactly(calls: seq<Call>, from: Address, spender: Address)
    ensures Allowance(Exec(calls), from, spender) + SpentSince(calls, from, spender)
         == LastApproved(calls, from, spender)
    ensures SpentSince(calls, from, spender) > 0 ==> Allowance(Exec(calls), from, spender) >= 0
    ensures SpentSince(calls, from, spender) >= 0
  {
    if calls != [] {
      AllowanceSpentExactly(calls[..|calls| - 1], from, spender);
      StepAuthorisations(Exec(calls[..|calls| - 1]), calls[|calls| - 1]);
    }
  }
}
