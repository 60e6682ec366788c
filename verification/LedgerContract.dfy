/** The contract as it runs: storage updated in place, entry point by entry point.

    A panic rolls back every write of the call. Each entry point takes a
    snapshot on entry and puts it back when a later check fails, because some
    of them write before their last check. */
module LedgerContract {
  import opened Wrappers
  import opened Ledger
  import opened LedgerRuns
  import opened LedgerOutcomes

  /** The call took effect, or it panicked and left storage as it was. */
  predicate Commits(before: Store, after: Store, ok: bool, c: Call) {
    Apply(before, c) == if ok then Ok(after) else Panic
  }

  /** No tokens, authorisations or batches were touched. */
  predicate KeepsBooks(before: Store, after: Store) {
    && after.supply == before.supply && after.balances == before.balances && after.nonces == before.nonces
    && after.allowances == before.allowances
    && after.processed == before.processed && after.details == before.details
  }

  function InitialRate(before: Store, code: string): i128 {
    if code in PRESETS then PRESETS[code] else if code in before.rates then before.rates[code] else 5 * ONE_ECO
  }

  /** Rewards of materials other than `code` do not depend on its rate. */
  lemma {:induction false} OtherRewardsStay(s: Store, code: string, rate: i128, codes: seq<string>, weights: seq<i128>)
    requires |codes| == |weights| && code !in codes
    ensures RewardTotal(s.(rates := s.rates[code := rate]), codes, weights) == RewardTotal(s, codes, weights)
  {
    if codes != [] { OtherRewardsStay(s, code, rate, codes[..|codes| - 1], weights[..|codes| - 1]); }
  }

  class Registry {
    var store: Store

    constructor ()
      ensures store == EMPTY
    {
      store := EMPTY;
    }

    method InternalMint(to: Address, amount: i128) returns (ok: bool)
      modifies this
      ensures MintTo(old(store), to, amount) == if ok then Ok(store) else Panic
    {
      var balance := Balance(store, to) + amount;
      if !InI128(balance) { return false; }
      store := store.(balances := store.balances[to := balance]);
      var supply := store.supply + amount;
      if !InI128(supply) { return false; }
      store := store.(supply := supply);
      return true;
    }

    method InternalTransfer(from: Address, to: Address, amount: i128) returns (ok: bool)
      modifies this
      ensures Move(old(store), from, to, amount) == if ok then Ok(store) else Panic
    {
      if amount <= 0 { return false; }
      var fromBalance := Balance(store, from);
      if fromBalance < amount { return false; }
      var toBalance := Balance(store, to);
      if !InI128(fromBalance - amount) { return false; }
      store := store.(balances := store.balances[from := fromBalance - amount]);
      if !InI128(toBalance + amount) { return false; }
      store := store.(balances := store.balances[to := toBalance + amount]);
      return true;
    }

    /** Works once. It hands privileges to exactly the owner and the worker, prices every material, and never
        runs again. */
    method Initialise(owner: Address, worker: Address) returns (ok: bool)
      modifies this
      ensures Commits(old(store), store, ok, Init(owner, worker)) && (!ok ==> store == old(store))
      ensures ok <==> old(store).owner.None?
      ensures ok ==> forall a, auth :: Privileged(store, a, auth) <==> auth && (a == owner || a == worker)
      ensures ok ==> forall code :: EffectiveRate(store, code) == InitialRate(old(store), code)
      ensures ok ==> EffectiveBps(store) == 2_000 && KeepsBooks(old(store), store)
      ensures forall o, w :: Apply(store, Init(o, w)).Panic?
    {
      if store.owner.Some? { return false; }
      store := store.(owner := Some(owner), worker := Some(worker));
      store := store.(defaultRate := Some(5 * ONE_ECO), collectorBps := Some(2_000));
      store := store.(rates := store.rates + PRESETS);
      return true;
    }

    /** From then on exactly the owner and the new worker are privileged; the old worker is not, unless it is one
        of them. */
    method ChangeWorker(caller: Address, auth: bool, newWorker: Address) returns (ok: bool)
      modifies this
      ensures Commits(old(store), store, ok, SetWorker(caller, auth, newWorker)) && (!ok ==> store == old(store))
      ensures ok ==> store.owner.Some? && store.owner == old(store).owner
      ensures ok ==> forall a :: Privileged(store, a, true) <==> a == store.owner.value || a == newWorker
      ensures ok ==> KeepsBooks(old(store), store)
      ensures ok ==> forall code :: EffectiveRate(store, code) == EffectiveRate(old(store), code)
    {
      if !Privileged(store, caller, auth) { return false; }
      store := store.(worker := Some(newWorker));
      return true;
    }

    /** The new rate counts for later rewards of this material, and for no other material nor for recorded batches. */
    method SetMaterialRate(caller: Address, auth: bool, code: string, rate: i128) returns (ok: bool)
      modifies this
      ensures Commits(old(store), store, ok, SetRate(caller, auth, code, rate)) && (!ok ==> store == old(store))
      ensures ok ==> EffectiveRate(store, code) == rate && KeepsBooks(old(store), store)
      ensures ok ==> forall codes: seq<string>, weights: seq<i128> :: |codes| == |weights| && code !in codes ==>
        RewardTotal(store, codes, weights) == RewardTotal(old(store), codes, weights)
    {
      if !Privileged(store, caller, auth) { return false; }
      store := store.(rates := store.rates[code := rate]);
      forall codes: seq<string>, weights: seq<i128> | |codes| == |weights| && code !in codes
        ensures RewardTotal(store, codes, weights) == RewardTotal(old(store), codes, weights)
      {
        OtherRewardsStay(old(store), code, rate, codes, weights);
      }
      return true;
    }

    /** The approval replaces whatever was left: the spender may move any positive amount up to it that the balance
        covers, and nothing beyond. Other pairs keep their allowances. */
    method ApproveSpender(from: Address, auth: bool, spender: Address, amount: i128) returns (ok: bool)
      modifies this
      ensures Commits(old(store), store, ok, Approve(from, auth, spender, amount)) && (!ok ==> store == old(store))
      ensures ok ==> forall to: Address, x: i128 ::
        Apply(store, TransferFrom(spender, true, from, to, x)).Ok?
        <==> 0 < x <= amount && x <= Balance(store, from) && InI128(Balance(store, to) + x)
      ensures ok ==> forall f, p :: (f, p) != (from, spender) ==> Allowance(store, f, p) == Allowance(old(store), f, p)
      ensures ok ==> KeepsBooks(old(store), store.(allowances := old(store).allowances))
    {
      if !auth { return false; }
      store := store.(allowances := store.allowances[(from, spender) := amount]);
      return true;
    }

    method TransferTokens(from: Address, auth: bool, to: Address, amount: i128) returns (ok: bool)
      modifies this
      ensures Commits(old(store), store, ok, Transfer(from, auth, to, amount)) && (!ok ==> store == old(store))
    {
      if !auth { return false; }
      var snapshot := store;
      ok := InternalTransfer(from, to, amount);
      if !ok { store := snapshot; }
    }

    /** The allowance is written before the balance check that may still panic. */
    method TransferOnBehalf(spender: Address, auth: bool, from: Address, to: Address, amount: i128)
      returns (ok: bool)
      modifies this
      ensures Commits(old(store), store, ok, TransferFrom(spender, auth, from, to, amount))
      ensures !ok ==> store == old(store)
    {
      if !auth { return false; }
      var snapshot := store;
      var allowed := Allowance(store, from, spender);
      if allowed < amount || !InI128(allowed - amount) { return false; }
      store := store.(allowances := store.allowances[(from, spender) := allowed - amount]);
      ok := InternalTransfer(from, to, amount);
      if !ok { store := snapshot; }
    }

    /** The nonce is bumped before the signature and the balance are checked. */
    method TransferDelegated(caller: Address, auth: bool, keyMatches: bool, signed: bool,
                             from: Address, to: Address, amount: i128, nonce: i128) returns (ok: bool)
      modifies this
      ensures Commits(old(store), store, ok, Delegated(caller, auth, keyMatches, signed, from, to, amount, nonce))
      ensures !ok ==> store == old(store)
      ensures ok <==>
        && ByOwnerOrWorker(old(store), caller, auth) && keyMatches && signed
        && nonce == Nonce(old(store), from) && InI128(nonce + 1) && Movable(old(store), from, to, amount)
    {
      DelegatedSucceedsIff(store, Delegated(caller, auth, keyMatches, signed, from, to, amount, nonce));
      if !Privileged(store, caller, auth) || !keyMatches { return false; }
      var snapshot := store;
      var current: int := Nonce(store, from);
      if nonce != current || !InI128(current + 1) { return false; }
      store := store.(nonces := store.nonces[from := current + 1]);
      ok := false;
      if signed {
        ok := InternalTransfer(from, to, amount);
      }
      if !ok { store := snapshot; }
    }

    method MintTokens(caller: Address, auth: bool, to: Address, amount: i128) returns (ok: bool)
      modifies this
      ensures Commits(old(store), store, ok, Mint(caller, auth, to, amount)) && (!ok ==> store == old(store))
      ensures ok <==>
        && ByOwnerOrWorker(old(store), caller, auth)
        && InI128(Balance(old(store), to) + amount) && InI128(old(store).supply + amount)
    {
      MintSucceedsIff(store, Mint(caller, auth, to, amount));
      if !Privileged(store, caller, auth) { return false; }
      var snapshot := store;
      ok := InternalMint(to, amount);
      if !ok { store := snapshot; }
    }

    /** Mints a list of credits in order and stops at the first panic. */
    method MintList(credits: seq<Credit>) returns (ok: bool)
      modifies this
      ensures MintAll(old(store), credits) == if ok then Ok(store) else Panic
    {
      for i := 0 to |credits|
        invariant MintAll(old(store), credits[..i]) == Ok(store)
      {
        assert credits[..i + 1][..i] == credits[..i];
        var minted := InternalMint(credits[i].to, credits[i].amount);
        if !minted {
          PanicIsFinal(old(store), credits, i + 1);
          return false;
        }
      }
      assert credits[..|credits|] == credits;
      return true;
    }

    /** The minting loop of a plain batch, adding up the amounts as it goes. */
    method MintAmounts(recipients: seq<Address>, amounts: seq<i128>) returns (ok: bool, total: i128)
      requires |recipients| == |amounts|
      modifies this
      ensures var minted, sum := MintAll(old(store), Zip(recipients, amounts)), CheckedTotal(amounts);
        if ok then minted == Ok(store) && sum == Some(total) else minted.Panic? || sum.None?
    {
      ghost var credits := Zip(recipients, amounts);
      total := 0;
      for i := 0 to |recipients|
        invariant MintAll(old(store), credits[..i]) == Ok(store)
        invariant CheckedTotal(amounts[..i]) == Some(total)
      {
        OneMoreMint(old(store), credits, i);
        OneMoreAmount(amounts, i);
        var minted := InternalMint(recipients[i], amounts[i]);
        if !minted {
          PanicIsFinal(old(store), credits, i + 1);
          return false, 0;
        }
        if !InI128(total + amounts[i]) {
          OverflowIsFinal(amounts, i + 1);
          return false, 0;
        }
        total := total + amounts[i];
      }
      assert credits[..|credits|] == credits && amounts[..|amounts|] == amounts;
      return true, total;
    }

    method RegisterBatch(caller: Address, auth: bool, id: BatchId, now: nat,
                         recipients: seq<Address>, amounts: seq<i128>) returns (ok: bool)
      modifies this
      ensures Commits(old(store), store, ok, Register(caller, auth, id, now, recipients, amounts))
      ensures !ok ==> store == old(store)
    {
      if !Privileged(store, caller, auth) || id in store.processed { return false; }
      if |recipients| != |amounts| || |recipients| == 0 { return false; }
      var snapshot := store;
      var total;
      ok, total := MintAmounts(recipients, amounts);
      if ok {
        store := Record(store, id, BatchRecord(now, total, |recipients|));
      } else {
        store := snapshot;
      }
    }

    /** The reward of the weighed materials at the current rates, None on overflow. */
    method ComputeReward(codes: seq<string>, weights: seq<i128>) returns (total: Option<i128>)
      requires |codes| == |weights|
      ensures total == RewardTotal(store, codes, weights)
    {
      var sum: i128 := 0;
      for i := 0 to |codes|
        invariant RewardTotal(store, codes[..i], weights[..i]) == Some(sum)
      {
        assert codes[..i + 1][..i] == codes[..i] && weights[..i + 1][..i] == weights[..i];
        var product := weights[i] * EffectiveRate(store, codes[i]);
        if !InI128(product) || !InI128(sum + TruncDiv(product, 1000)) {
          RewardOverflowIsFinal(store, codes, weights, i + 1);
          return None;
        }
        sum := sum + TruncDiv(product, 1000);
      }
      assert codes[..|codes|] == codes && weights[..|weights|] == weights;
      return Some(sum);
    }

    method RegisterBatchWeighed(caller: Address, auth: bool, id: BatchId, now: nat, collector: Address,
                                households: seq<Address>, codes: seq<string>, weights: seq<i128>)
      returns (ok: bool)
      modifies this
      ensures Commits(old(store), store, ok,
                      RegisterWeighed(caller, auth, id, now, collector, households, codes, weights))
      ensures !ok ==> store == old(store)
    {
      if !Privileged(store, caller, auth) || id in store.processed { return false; }
      if |codes| != |weights| || |codes| == 0 { return false; }
      var reward := ComputeReward(codes, weights);
      if reward.None? || reward.value == 0 { return false; }
      var total := reward.value;
      var bps := EffectiveBps(store);
      if !InI128(total * bps) || |households| + 1 > U32_MAX { return false; }
      var collectorReward := TruncDiv(total * bps, BPS_DENOMINATOR);
      var perHousehold := 0;
      if |households| > 0 {
        var householdsTotal := total - collectorReward;
        perHousehold := TruncDiv(householdsTotal, |households|);
        collectorReward := collectorReward + (householdsTotal - perHousehold * |households|);
      } else {
        collectorReward := total;
      }
      assert Shares(perHousehold, collectorReward) == Split(total, bps, |households|);
      if !InI128(perHousehold) || !InI128(collectorReward) { return false; }
      var snapshot := store;
      ok := MintList(WeighedCredits(Shares(perHousehold, collectorReward), households, collector));
      if !ok {
        store := snapshot;
        return;
      }
      store := Record(store, id, BatchRecord(now, total, |households| + 1));
    }

    /** The batch goes on record without a reward; no token moves, and no registration of that id succeeds
        afterwards. */
    method NotarizeReceipt(caller: Address, auth: bool, id: BatchId, now: nat) returns (ok: bool)
      modifies this
      ensures Commits(old(store), store, ok, Notarize(caller, auth, id, now)) && (!ok ==> store == old(store))
      ensures ok <==> Privileged(old(store), caller, auth) && id !in old(store).processed
      ensures ok ==> id in store.details && store.details[id] == BatchRecord(now, 0, 1)
      ensures ok ==> KeepsBooks(old(store), store.(processed := old(store).processed, details := old(store).details))
      ensures ok ==> forall b :: b != id ==>
        && (b in store.details <==> b in old(store).details)
        && (b in store.details ==> store.details[b] == old(store).details[b])
      ensures ok ==> forall c: Call :: Registers(c) && c.id == id ==> Apply(store, c).Panic?
    {
      if !Privileged(store, caller, auth) || id in store.processed { return false; }
      store := Record(store, id, BatchRecord(now, 0, 1));
      return true;
    }
  }

  lemma OneMoreMint(s: Store, credits: seq<Credit>, i: nat)
    requires i < |credits| && MintAll(s, credits[..i]).Ok?
    ensures MintAll(s, credits[..i + 1]) == MintTo(MintAll(s, credits[..i]).store, credits[i].to, credits[i].amount)
  {
    assert credits[..i + 1][..i] == credits[..i];
  }

  lemma OneMoreAmount(amounts: seq<i128>, i: nat)
    requires i < |amounts| && CheckedTotal(amounts[..i]).Some?
    ensures var t := CheckedTotal(amounts[..i]).value + amounts[i];
      CheckedTotal(amounts[..i + 1]) == if InI128(t) then Some(t) else None
  {
    assert amounts[..i + 1][..i] == amounts[..i];
  }

  /** A panic inside a list of credits makes the whole list panic. */
  lemma {:induction false} PanicIsFinal(s: Store, credits: seq<Credit>, i: nat)
    requires i <= |credits| && MintAll(s, credits[..i]).Panic?
    ensures MintAll(s, credits).Panic?
  {
    if i == |credits| {
      assert credits[..i] == credits;
    } else {
      var front := credits[..|credits| - 1];
      assert front[..i] == credits[..i];
      PanicIsFinal(s, front, i);
    }
  }

  lemma {:induction false} OverflowIsFinal(amounts: seq<i128>, i: nat)
    requires i <= |amounts| && CheckedTotal(amounts[..i]).None?
    ensures CheckedTotal(amounts).None?
  {
    if i == |amounts| {
      assert amounts[..i] == amounts;
    } else {
      var front := amounts[..|amounts| - 1];
      assert front[..i] == amounts[..i];
      OverflowIsFinal(front, i);
    }
  }

  lemma {:induction false} RewardOverflowIsFinal(s: Store, codes: seq<string>, weights: seq<i128>, i: nat)
    requires |codes| == |weights| && i <= |codes|
    requires RewardTotal(s, codes[..i], weights[..i]).None?
    ensures RewardTotal(s, codes, weights).None?
  {
    if i == |codes| {
      assert codes[..i] == codes && weights[..i] == weights;
    } else {
      var last := |codes| - 1;
      assert codes[..last][..i] == codes[..i] && weights[..last][..i] == weights[..i];
      RewardOverflowIsFinal(s, codes[..last], weights[..last], i);
    }
  }
}
