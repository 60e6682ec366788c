/** When each entry point of the registry succeeds, in terms of who calls, what is stored and what fits in 128 bits. */
module LedgerOutcomes {
  import opened Ledger
  import opened LedgerRuns
  import opened Wrappers

  lemma WidthIs128Bits(x: int)
    ensures InI128(x) <==> -170141183460469231731687303715884105728 <= x <= 170141183460469231731687303715884105727
  {
  }

  /** The caller is the stored owner or the stored worker, both are stored, and the host has authorised the call. */
  predicate ByOwnerOrWorker(s: Store, caller: Address, auth: bool) {
    auth && s.owner != None && s.worker != None && (s.owner == Some(caller) || s.worker == Some(caller))
  }

  /** Settings: the first initialisation, and afterwards the owner or the worker. Approvals: the holder. */
  lemma SettingSucceedsIff(s: Store, c: Call)
    ensures c.Init? ==> (Apply(s, c).Ok? <==> s.owner == None)
    ensures c.SetWorker? || c.SetRate? ==> (Apply(s, c).Ok? <==> ByOwnerOrWorker(s, c.caller, c.auth))
    ensures c.Approve? ==> (Apply(s, c).Ok? <==> c.auth)
  {
  }

  /** The amount is positive, covered, and fits in the receiver's balance. */
  predicate Movable(s: Store, from: Address, to: Address, amount: i128) {
    0 < amount <= Balance(s, from) && InI128(Balance(s, to) + amount)
  }

  lemma TransferSucceedsIff(s: Store, c: Call)
    requires c.Transfer?
    ensures Apply(s, c).Ok? <==> c.auth && Movable(s, c.from, c.to, c.amount)
  {
  }

  lemma TransferFromSucceedsIff(s: Store, c: Call)
    requires c.TransferFrom?
    ensures Apply(s, c).Ok? <==>
      c.auth && c.amount <= Allowance(s, c.from, c.spender) && Movable(s, c.from, c.to, c.amount)
  {
  }

  /** A delegated transfer needs the relayer's privilege and the sender's key, signature and next nonce. */
  lemma DelegatedSucceedsIff(s: Store, c: Call)
    requires c.Delegated?
    ensures Apply(s, c).Ok? <==>
      && ByOwnerOrWorker(s, c.caller, c.auth) && c.keyMatches && c.signed
      && c.nonce == Nonce(s, c.from) && InI128(c.nonce + 1)
      && Movable(s, c.from, c.to, c.amount)
  {
  }

  lemma MintSucceedsIff(s: Store, c: Call)
    requires c.Mint?
    ensures Apply(s, c).Ok? <==>
      && ByOwnerOrWorker(s, c.caller, c.auth)
      && InI128(Balance(s, c.to) + c.amount) && InI128(s.supply + c.amount)
  {
  }

  // ---------- Lists of mints ----------

  /** Every mint of the list fits when its turn comes. */
  predicate CreditsFit(s: Store, credits: seq<Credit>) {
    forall k :: 0 < k <= |credits| ==> CreditFits(s, credits, k)
  }

  predicate CreditFits(s: Store, credits: seq<Credit>, k: nat)
    requires 0 < k <= |credits|
  {
    && InI128(Balance(s, credits[k - 1].to) + Received(credits[..k], credits[k - 1].to))
    && InI128(s.supply + TotalOf(credits[..k]))
  }

  lemma LastCreditFits(s: Store, credits: seq<Credit>)
    requires credits != [] && MintAll(s, credits[..|credits| - 1]).Ok?
    ensures MintAll(s, credits).Ok? <==> CreditFits(s, credits, |credits|)
  {
    assert credits[..|credits|] == credits;
    MintAllEffect(s, credits[..|credits| - 1]);
  }

  lemma {:induction false} MintAllSucceedsIff(s: Store, credits: seq<Credit>)
    ensures MintAll(s, credits).Ok? <==> CreditsFit(s, credits)
  {
    if credits != [] {
      var n := |credits|;
      var front := credits[..n - 1];
      MintAllSucceedsIff(s, front);
      forall k | 0 < k < n ensures CreditFits(s, front, k) == CreditFits(s, credits, k) {
        assert front[..k] == credits[..k];
      }
      if MintAll(s, front).Ok? { LastCreditFits(s, credits); }
      assert CreditsFit(s, credits) ==> CreditsFit(s, front) && CreditFits(s, credits, n);
    }
  }

  // ---------- Plain batches ----------

  function AmountSum(amounts: seq<i128>): int {
    if amounts == [] then 0 else amounts[0] + AmountSum(amounts[1..])
  }

  lemma {:induction false} AmountSumAppend(amounts: seq<i128>, x: i128)
    ensures AmountSum(amounts + [x]) == AmountSum(amounts) + x
  {
    if amounts == [] {
      assert [] + [x] == [x] && [x][1..] == [];
    } else {
      assert (amounts + [x])[1..] == amounts[1..] + [x];
      AmountSumAppend(amounts[1..], x);
    }
  }

  /** No partial sum of the amounts leaves the 128-bit range. */
  predicate SumsFit(amounts: seq<i128>) { forall k :: 0 <= k <= |amounts| ==> InI128(AmountSum(amounts[..k])) }

  lemma {:induction false} CheckedTotalIs(amounts: seq<i128>)
    ensures CheckedTotal(amounts) == if SumsFit(amounts) then Some(AmountSum(amounts)) else None
  {
    var n := |amounts|;
    assert amounts[..n] == amounts;
    if n > 0 {
      var front := amounts[..n - 1];
      CheckedTotalIs(front);
      assert amounts == front + [amounts[n - 1]];
      AmountSumAppend(front, amounts[n - 1]);
      forall k | 0 <= k < n ensures front[..k] == amounts[..k] {}
      assert SumsFit(amounts) <==> SumsFit(front) && InI128(AmountSum(amounts));
    }
  }

  /** What the lists give an address. */
  function ListedFor(recipients: seq<Address>, amounts: seq<i128>, a: Address): int
    requires |recipients| == |amounts|
  {
    if recipients == [] then 0
    else (if recipients[0] == a then amounts[0] else 0) + ListedFor(recipients[1..], amounts[1..], a)
  }

  lemma {:induction false} ListedForAppend(recipients: seq<Address>, amounts: seq<i128>,
                                           r: Address, x: i128, a: Address)
    requires |recipients| == |amounts|
    ensures ListedFor(recipients + [r], amounts + [x], a)
         == ListedFor(recipients, amounts, a) + if r == a then x else 0
  {
    if recipients == [] {
      assert ([] + [r])[1..] == [] && ([] + [x])[1..] == [];
    } else {
      assert (recipients + [r])[1..] == recipients[1..] + [r] && (amounts + [x])[1..] == amounts[1..] + [x];
      ListedForAppend(recipients[1..], amounts[1..], r, x, a);
    }
  }

  lemma {:induction false} ZippedIsListed(recipients: seq<Address>, amounts: seq<i128>, a: Address)
    requires |recipients| == |amounts|
    ensures Received(Zip(recipients, amounts), a) == ListedFor(recipients, amounts, a)
    ensures TotalOf(Zip(recipients, amounts)) == AmountSum(amounts)
  {
    if recipients != [] {
      var last := |recipients| - 1;
      var rs, xs := recipients[..last], amounts[..last];
      assert recipients == rs + [recipients[last]] && amounts == xs + [amounts[last]];
      assert Zip(recipients, amounts)[..last] == Zip(rs, xs);
      ZippedIsListed(rs, xs, a);
      ListedForAppend(rs, xs, recipients[last], amounts[last], a);
      AmountSumAppend(xs, amounts[last]);
    }
  }

  /** After the first k mints every balance, the supply and the running total are within range. */
  predicate ListsFit(s: Store, recipients: seq<Address>, amounts: seq<i128>)
    requires |recipients| == |amounts|
  {
    && SumsFit(amounts)
    && forall k :: 0 < k <= |amounts| ==> ListFits(s, recipients, amounts, k)
  }

  predicate ListFits(s: Store, recipients: seq<Address>, amounts: seq<i128>, k: nat)
    requires |recipients| == |amounts| && 0 < k <= |amounts|
  {
    && InI128(Balance(s, recipients[k - 1]) + ListedFor(recipients[..k], amounts[..k], recipients[k - 1]))
    && InI128(s.supply + AmountSum(amounts[..k]))
  }

  lemma ZippedFits(s: Store, recipients: seq<Address>, amounts: seq<i128>)
    requires |recipients| == |amounts|
    ensures CreditsFit(s, Zip(recipients, amounts))
       <==> forall k :: 0 < k <= |amounts| ==> ListFits(s, recipients, amounts, k)
  {
    var credits := Zip(recipients, amounts);
    forall k | 0 < k <= |amounts|
      ensures CreditFits(s, credits, k) == ListFits(s, recipients, amounts, k)
    {
      assert credits[..k] == Zip(recipients[..k], amounts[..k]);
      ZippedIsListed(recipients[..k], amounts[..k], recipients[k - 1]);
    }
  }

  lemma RegisterSucceedsIff(s: Store, c: Call)
    requires c.Register?
    ensures Apply(s, c).Ok? <==>
      && ByOwnerOrWorker(s, c.caller, c.auth) && c.id !in s.processed
      && |c.recipients| == |c.amounts| && c.recipients != []
      && ListsFit(s, c.recipients, c.amounts)
  {
    if |c.recipients| == |c.amounts| {
      MintAllSucceedsIff(s, Zip(c.recipients, c.amounts));
      ZippedFits(s, c.recipients, c.amounts);
      CheckedTotalIs(c.amounts);
    }
  }

  /** What a plain batch pays and records, read off its lists. */
  lemma RegisterEffect(s: Store, c: Call)
    requires c.Register? && Apply(s, c).Ok?
    ensures |c.recipients| == |c.amounts|
    ensures var t := Apply(s, c).store;
      && (forall a :: Balance(t, a) == Balance(s, a) + ListedFor(c.recipients, c.amounts, a))
      && t.supply == s.supply + AmountSum(c.amounts)
      && c.id in t.processed && c.id in t.details
      && t.details[c.id].timestamp == c.now && t.details[c.id].recipients == |c.recipients|
      && t.details[c.id].totalReward == AmountSum(c.amounts)
  {
    RegisterPaysExactly(s, c);
    CheckedTotalIs(c.amounts);
    MintAllEffect(s, Zip(c.recipients, c.amounts));
    forall a ensures Balance(Apply(s, c).store, a) == Balance(s, a) + ListedFor(c.recipients, c.amounts, a) {
      ZippedIsListed(c.recipients, c.amounts, a);
    }
    ZippedIsListed(c.recipients, c.amounts, c.caller);
  }

  // ---------- Weighed batches ----------

  /** One line's reward: q is weight times rate over a thousand, the fraction dropped on either side of zero. */
  predicate IsLineReward(s: Store, code: string, weight: i128, q: int) {
    var p := weight * EffectiveRate(s, code);
    if p >= 0 then 1000 * q <= p < 1000 * (q + 1) else 1000 * (q - 1) < p <= 1000 * q
  }

  lemma LineRewardIs(s: Store, code: string, weight: i128)
    ensures IsLineReward(s, code, weight, TruncDiv(weight * EffectiveRate(s, code), 1000))
  {
  }

  /** The rewards of the lines, summed without regard to width. */
  function RewardSum(s: Store, codes: seq<string>, weights: seq<i128>): int
    requires |codes| == |weights|
  {
    if codes == [] then 0
    else TruncDiv(weights[0] * EffectiveRate(s, codes[0]), 1000) + RewardSum(s, codes[1..], weights[1..])
  }

  lemma {:induction false} RewardSumAppend(s: Store, codes: seq<string>, weights: seq<i128>, code: string, weight: i128)
    requires |codes| == |weights|
    ensures RewardSum(s, codes + [code], weights + [weight])
         == RewardSum(s, codes, weights) + TruncDiv(weight * EffectiveRate(s, code), 1000)
  {
    if codes == [] {
      assert ([] + [code])[1..] == [] && ([] + [weight])[1..] == [];
    } else {
      assert (codes + [code])[1..] == codes[1..] + [code] && (weights + [weight])[1..] == weights[1..] + [weight];
      RewardSumAppend(s, codes[1..], weights[1..], code, weight);
    }
  }

  /** No product and no partial sum leaves the 128-bit range. */
  predicate RewardsFit(s: Store, codes: seq<string>, weights: seq<i128>)
    requires |codes| == |weights|
  {
    forall k :: 0 < k <= |codes| ==> RewardFits(s, codes, weights, k)
  }

  predicate RewardFits(s: Store, codes: seq<string>, weights: seq<i128>, k: nat)
    requires 0 < k <= |codes| == |weights|
  {
    InI128(weights[k - 1] * EffectiveRate(s, codes[k - 1])) && InI128(RewardSum(s, codes[..k], weights[..k]))
  }

  lemma RewardsFitLast(s: Store, codes: seq<string>, weights: seq<i128>)
    requires |codes| == |weights| > 0
    ensures var n := |codes|;
      RewardsFit(s, codes, weights)
      <==> RewardsFit(s, codes[..n - 1], weights[..n - 1]) && RewardFits(s, codes, weights, n)
  {
    var n := |codes|;
    var cs, ws := codes[..n - 1], weights[..n - 1];
    forall k | 0 < k < n ensures RewardFits(s, cs, ws, k) == RewardFits(s, codes, weights, k) {
      assert cs[..k] == codes[..k] && ws[..k] == weights[..k];
    }
    assert RewardsFit(s, codes, weights) ==> RewardFits(s, codes, weights, n);
  }

  lemma {:induction false} RewardTotalIs(s: Store, codes: seq<string>, weights: seq<i128>)
    requires |codes| == |weights|
    ensures RewardTotal(s, codes, weights)
         == if RewardsFit(s, codes, weights) then Some(RewardSum(s, codes, weights)) else None
  {
    if codes != [] {
      var n := |codes| - 1;
      RewardTotalIs(s, codes[..n], weights[..n]);
      RewardsFitLast(s, codes, weights);
      assert codes[..n + 1] == codes && weights[..n + 1] == weights;
      assert codes == codes[..n] + [codes[n]] && weights == weights[..n] + [weights[n]];
      RewardSumAppend(s, codes[..n], weights[..n], codes[n], weights[n]);
    }
  }

  lemma SharesFit(total: i128, n: nat)
    requires total != 0
    ensures InI128(Split(total, 2_000, n).perHousehold) && InI128(Split(total, 2_000, n).collector)
  {
    var shares := Split(total, 2_000, n);
    if total > 0 {
      SplitExact(total, n);
      BetweenFits(total, shares.perHousehold);
      BetweenFits(total, shares.collector);
    } else {
      SplitNegative(total, n);
      BetweenFits(total, shares.perHousehold);
      BetweenFits(total, shares.collector);
    }
  }

  lemma BetweenFits(total: i128, x: int)
    requires 0 <= x <= total || total <= x <= 0
    ensures InI128(x)
  {
    assert InI128(total);
  }

  /** A weighed batch succeeds exactly for a privileged caller, a new id, matching non-empty lists with a total reward
      that is in range and not zero, a household list of 32-bit length, and mints that fit. */
  lemma WeighedSucceedsIff(s: Store, c: Call)
    requires c.RegisterWeighed? && EffectiveBps(s) == 2_000
    ensures Apply(s, c).Ok? <==>
      && ByOwnerOrWorker(s, c.caller, c.auth) && c.id !in s.processed
      && |c.codes| == |c.weights| && c.codes != []
      && RewardsFit(s, c.codes, c.weights)
      && var total := RewardSum(s, c.codes, c.weights);
         total != 0 && InI128(total * 2_000) && |c.households| < 4_294_967_295 && MintsFit(s, c, total)
  {
    if |c.codes| == |c.weights| {
      RewardTotalIs(s, c.codes, c.weights);
      if RewardsFit(s, c.codes, c.weights) {
        var total := RewardSum(s, c.codes, c.weights);
        if total != 0 {
          SharesFit(total, |c.households|);
          MintAllSucceedsIff(s, WeighedCredits(Split(total, 2_000, |c.households|), c.households, c.collector));
          if total < 0 { SplitNegative(total, |c.households|); }
        }
      }
    }
  }

  /** A negative total mints nothing; a positive one mints one share for each household, then the collector's. */
  predicate MintsFit(s: Store, c: Call, total: int)
    requires c.RegisterWeighed?
  {
    total > 0 && InI128(total) ==>
      var shares := Split(total, 2_000, |c.households|);
      InI128(shares.perHousehold) && InI128(shares.collector)
      && CreditsFit(s, WeighedCredits(shares, c.households, c.collector))
  }

  /** A batch whose whole reward fits on every balance and on the supply is never refused for its mints. */
  lemma RoomyMintsFit(s: Store, c: Call, total: i128)
    requires c.RegisterWeighed? && total > 0
    requires forall a :: a in s.balances ==> s.balances[a] >= 0 && InI128(s.balances[a] + total)
    requires s.supply >= 0 && InI128(s.supply + total)
    ensures MintsFit(s, c, total)
  {
    var n := |c.households|;
    var shares := Split(total, 2_000, n);
    SplitExact(total, n);
    BetweenFits(total, shares.perHousehold);
    BetweenFits(total, shares.collector);
    var credits := WeighedCredits(shares, c.households, c.collector);
    WeighedCreditsAddUp(shares, c.households, c.collector, c.collector);
    WeighedCreditsArePositive(shares, c.households, c.collector);
    RoomyCreditsFit(s, credits, total);
  }

  lemma RoomyCreditsFit(s: Store, credits: seq<Credit>, total: i128)
    requires TotalOf(credits) == total && forall i :: 0 <= i < |credits| ==> credits[i].amount > 0
    requires forall a :: a in s.balances ==> s.balances[a] >= 0 && InI128(s.balances[a] + total)
    requires s.supply >= 0 && InI128(s.supply + total)
    ensures CreditsFit(s, credits)
  {
    forall k | 0 < k <= |credits| ensures CreditFits(s, credits, k) {
      var to := credits[k - 1].to;
      PrefixBounds(credits, k, to);
      RoomFor(Balance(s, to), total, Received(credits[..k], to));
      RoomFor(s.supply, total, TotalOf(credits[..k]));
    }
  }

  lemma RoomFor(held: int, total: i128, part: int)
    requires held >= 0 && InI128(held + total) && 0 <= part <= total
    ensures InI128(held + part)
  {
    assert InI128(total);
  }

  lemma {:induction false} PrefixBounds(credits: seq<Credit>, k: nat, a: Address)
    requires k <= |credits| && forall i :: 0 <= i < |credits| ==> credits[i].amount > 0
    ensures 0 <= Received(credits[..k], a) <= TotalOf(credits[..k]) <= TotalOf(credits)
  {
    if k == |credits| {
      assert credits[..k] == credits;
      if k > 0 {
        var front := credits[..k - 1];
        assert front[..k - 1] == front;
        PrefixBounds(front, k - 1, a);
      }
    } else {
      var front := credits[..|credits| - 1];
      assert front[..k] == credits[..k];
      PrefixBounds(front, k, a);
    }
  }

  /** What a weighed batch records. */
  lemma WeighedRecord(s: Store, c: Call)
    requires c.RegisterWeighed? && Apply(s, c).Ok?
    ensures |c.codes| == |c.weights|
    ensures var t := Apply(s, c).store;
      && c.id in t.processed && c.id in t.details
      && t.details[c.id].timestamp == c.now && t.details[c.id].recipients == |c.households| + 1
      && t.details[c.id].totalReward == RewardSum(s, c.codes, c.weights)
  {
    var total, credits := WeighedUnfolds(s, c);
    RewardTotalIs(s, c.codes, c.weights);
  }

  /** A notarised receipt goes on record with its time, without a reward, for one recipient, once for each id. */
  lemma NotarizeOutcome(s: Store, c: Call)
    requires c.Notarize?
    ensures Apply(s, c).Ok? <==> ByOwnerOrWorker(s, c.caller, c.auth) && c.id !in s.processed
    ensures Apply(s, c).Ok? ==>
      var t := Apply(s, c).store;
      && t.processed == s.processed + {c.id}
      && c.id in t.details && t.details[c.id].timestamp == c.now
      && t.details[c.id].totalReward == 0 && t.details[c.id].recipients == 1
  {
  }

  // ---------- Initial prices ----------

  /** The price list, in tenths of millionths of a token per kilogram. */
  lemma InitialPrices(s: Store, owner: Address, worker: Address, code: string)
    requires Apply(s, Init(owner, worker)).Ok? && s.rates == map[]
    ensures EffectiveRate(Apply(s, Init(owner, worker)).store, code)
      == if code == "PET" || code == "PLASTICO" then 100_000_000
         else if code == "ALUMINIO" then 150_000_000
         else if code == "TETRAPAK" then 40_000_000
         else if code == "VIDRIO" then 30_000_000
         else 50_000_000
    ensures EffectiveBps(Apply(s, Init(owner, worker)).store) == 2_000
  {
  }
}
