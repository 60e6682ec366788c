# Livora service: verified model

A Dafny model of the parts of the Livora recycling service whose correctness is
a property of whole runs, with proofs about every run:

- the EcoToken registry contract (token ledger, batch registration, 80/20 reward
  split, delegated transfers);
- the leasing of Stellar channel accounts and the Redis sequence lock;
- the multi-RPC failover scheduler;
- collection requests, auctions, escrow and PIN verification;
- the inventory of the recycling centers and its mass balance;
- the Base58 CID encoder and the greedy trip ordering.

`dafny verify dfyconfig.toml` checks everything.

## How it is built

Each component has a *specification module* with its stored state as a value,
one function per call (`Apply`, `Next`) and runs as sequences of calls or steps
(`Exec`). A call that fails leaves the state as it was. Theorems are stated over
all runs from the initial state. Beside it, an *object module* holds a class with
the mutable fields of the source; its methods follow the source statement by
statement and are proved to have exactly the effect of the specification, the
failing cases included.

| module | what it holds |
|---|---|
| `Wrappers`, `Sums`, `Text` | optional values; sums over maps; upper-casing and trimming of material names |
| `Ledger`, `LedgerRuns`, `LedgerOutcomes`, `LedgerContract` | contract storage and calls; theorems over runs; when each entry point succeeds; the contract object |
| `ChannelPool`, `AccountLock`, `ChannelRuns` | channel leases and the lock, as steps between awaits; both together |
| `RpcFailover`, `RpcRuns`, `RpcCounters`, `RpcBound`, `RpcFairness`, `RpcManager` | scheduler steps; health and conservation; counters, cursor and cooldowns as histories; the failover bound; round-robin fairness; the object |
| `Collections`, `CollectionRuns`, `CollectionEffects`, `CollectionRules`, `StaleWrites`, `CollectionServices` | request and bid tables; theorems; what each call means for later ones; who may do what and which call writes what; late timeout writes; the services |
| `VerifyPin` | interleaved PIN verification next to all other calls |
| `Inventory`, `InventoryRuns`, `InventoryEffects`, `MassBalance`, `WarehouseServices` | stock and log; agreement; what each writer takes, adds and requires; shrink rule; the services |
| `Base58`, `GreedyTrip` | the two loop algorithms and their reference definitions |

What the outside world answers is an argument of a call: signature checks, clock
readings, drawn ids, the row a `findFirst` returns, which query fails, whether a
remote attempt succeeds. The theorems hold for all answers. The contract is built
with overflow checks, so leaving the 128-bit range is a panic of the call.

## Results worth knowing

- Sending tokens to oneself adds them: both balances are read before either is
  written. Balances add up to the supply exactly in runs without a successful
  self-transfer (`ConservedIffNoSelfTransfer`).
- A weighed batch whose total is negative is recorded with that total but burns
  nothing; supply and records agree exactly without one (`SupplyMatchesRecordsIff`).
- Channel leases are exclusive in all runs exactly when the primary key is not in
  the pool; with no channels configured it is the pool (`DefaultPoolIsShared`).
  What runs at the same time is another matter: with undisturbed locks, callbacks
  are one at a time per key exactly when the pool has at most one key or the key
  is not the primary, which timeouts hand out without a lock
  (`OneCallbackPerKeyIff`).
- The sequence lock excludes in all runs exactly when no lock expires under its
  owner, nobody stops waiting and no command errs (`ExclusionIff`); run by run,
  everyone inside is protected exactly when no step does any of these
  (`RunGuardedIff`).
- The emergency RPC retry is described as going to the node whose cooldown ends
  next. While any node is healthy it goes to a healthy one, whose cooldown reads
  as zero (`EmergencyNodeIsCoolingIffAllAre`), even to the one that has just failed
  (`RetryOnTheNodeThatFailed`).
- Round-robin is fair over k nodes exactly when the cursor does not wrap at 10000
  within the window or k divides 10000 (`RoundRobinIsFairIff`); three nodes meet
  the wrap at call 10001 (`WrapServesANodeTwice`).
- The services do not consult the documented transition table. The calls that
  leave it are listed exactly in `LeavesTableIff`; among them a collector may turn
  a finished request into a cancelled one (`CompletedRequestIsCancelled`), but no
  call leaves the terminal statuses (`TerminalIsClosed`).
- The timeout worker writes the rows it selected earlier without looking at them
  again. A run with such late writes keeps the lifecycle invariant at every step
  exactly when each of them finds its row in a status it may still write
  (`RunKeepsLifecycleIff`); over all runs, exactly when inactivity steps and
  auction fallbacks never come late (`LifecycleIsKeptIff`). Late, they bring
  cancelled requests back, even beside a new one of the same household
  (`LateInactivityRevivesRequest`). Keeping the lifecycle is not keeping the
  outcome: a late pending timeout makes a completed request a cancelled one
  (`LateClosingOverwritesCompletion`), and an inactivity write takes back one on its
  way. The theorems about calls alone, `TerminalStatusChangesOnlyByCollectorCancel`
  and those of `VerifyPin` among them, are about runs without late writes.
- At most one `verifyPin` call completes a request, whatever the lock does. The
  on-chain credit comes before the update: it is made at most once in all runs
  exactly under the five conditions of `CreditedAtMostOnceIff`, and is followed by a
  completion exactly under the four of `CreditedMeansCompletedIff`: a cancel, no-show
  or rejection that comes between leaves the household paid and the request closed.
- The "no entries" exemption of `acceptTransfer` never waives the mass rule as long
  as its totals were read (`AcceptedDispatchHasEntries`). The mass balance holds in
  all runs exactly without manual OUT movements, direct dispatches and accepted
  transfers whose totals query failed (`MassBalanceIff`), and in any run exactly
  while every accepted call finds room in its class (`RunBalancedIff`).

## Model

| member | source | states |
|---|---|---|
| LedgerRuns.Conservation | contracts/ecotoken_registry/src/lib.rs:452-482 | in every run, balances sum to the supply plus all successful self-transfers |
| LedgerRuns.ConservedIffNoSelfTransfer | contracts/ecotoken_registry/src/lib.rs:463-482 | balances sum to the supply if and only if no transfer to oneself succeeded |
| LedgerRuns.SelfTransferCreatesTokens | contracts/ecotoken_registry/src/lib.rs:470-481 | one token sent to oneself becomes two while the supply stays one |
| LedgerRuns.MoveEffect | contracts/ecotoken_registry/src/lib.rs:463-482 | a transfer moves the amount between two addresses, adds it when they are the same, and touches no one else |
| LedgerRuns.BalancesNonNegative | contracts/ecotoken_registry/src/lib.rs:151-175 | if no mint is negative, no balance is negative after any run |
| LedgerRuns.MintAllEffect | contracts/ecotoken_registry/src/lib.rs:452-461 | minting a list credits each address with exactly its entries and the supply with their total |
| LedgerRuns.WeighedPaysExactly | contracts/ecotoken_registry/src/lib.rs:243-294 | every address gains its multiplicity among households times the household share, plus the collector share if it is the collector; shares add up to the recorded reward; rounding favours the collector by less than n |
| LedgerRuns.WeighedRewardIsAccurate | contracts/ecotoken_registry/src/lib.rs:243-250 | with non-negative weights and rates, 1000 times the recorded total misses the exact sum of weight times rate by at most 999 per line |
| LedgerRuns.RegisterPaysExactly | contracts/ecotoken_registry/src/lib.rs:197-215 | a plain batch pays every address exactly what the lists give it and records exactly what it minted |
| LedgerRuns.SplitExact | contracts/ecotoken_registry/src/lib.rs:256-270 | the shares of a positive total are non-negative and add up to it for any number of households |
| LedgerRuns.SplitNegative | contracts/ecotoken_registry/src/lib.rs:252-280 | a negative total gives no positive share, so nothing is minted |
| LedgerRuns.RunBps | contracts/ecotoken_registry/src/lib.rs:54-57 | the collector share in force is 20% in every run |
| LedgerRuns.StepBatches | contracts/ecotoken_registry/src/lib.rs:188-216 | only a successful registration touches the batch tables, and only for an id never processed before |
| LedgerRuns.BatchSucceedsOnce | contracts/ecotoken_registry/src/lib.rs:188-191 | across the three registration entry points, a batch id succeeds at most once in a run |
| LedgerRuns.DetailsExactlyProcessed | contracts/ecotoken_registry/src/lib.rs:205-215 | details exist exactly for processed batches |
| LedgerRuns.DetailsNeverChange | contracts/ecotoken_registry/src/lib.rs:315-327 | details once recorded are the same at the end of every longer run |
| LedgerRuns.SupplyHistory | contracts/ecotoken_registry/src/lib.rs:171-297 | supply is direct mints plus recorded rewards plus the negative rewards that were never burned |
| LedgerRuns.SupplyMatchesRecordsIff | contracts/ecotoken_registry/src/lib.rs:252-294 | supply equals direct mints plus recorded rewards if and only if no weighed batch had a negative total |
| LedgerRuns.NegativeShowsInAdvance | contracts/ecotoken_registry/src/lib.rs:243-254 | whether a weighed batch records a negative total is decided by its weights and the rates before the call |
| LedgerRuns.NegativeBatchBurnsNothing | contracts/ecotoken_registry/src/lib.rs:252-294 | minus one kilogram of PET goes on record with a negative reward while supply and balances stay empty |
| LedgerRuns.NonceCountsDelegated | contracts/ecotoken_registry/src/lib.rs:401-408 | a stored nonce is the number of successful delegated transfers of its sender; failed calls do not consume it |
| LedgerRuns.DelegatedNonceUsedOnce | contracts/ecotoken_registry/src/lib.rs:394-427 | successful delegated transfers of a sender use strictly increasing nonces |
| LedgerRuns.AllowanceSpentExactly | contracts/ecotoken_registry/src/lib.rs:144-167 | between approvals, remaining allowance plus everything moved equals the approved amount |
| LedgerOutcomes.SettingSucceedsIff | contracts/ecotoken_registry/src/lib.rs:47-99 | initialisation succeeds exactly the first time, worker and rate changes exactly for owner or worker, approvals exactly for the holder |
| LedgerOutcomes.TransferSucceedsIff | contracts/ecotoken_registry/src/lib.rs:151-154 | a transfer succeeds if and only if the holder authorised it and the amount is positive, covered, and fits the receiver |
| LedgerOutcomes.TransferFromSucceedsIff | contracts/ecotoken_registry/src/lib.rs:156-167 | so does one on behalf, if and only if the allowance covers it too |
| LedgerOutcomes.DelegatedSucceedsIff | contracts/ecotoken_registry/src/lib.rs:384-428 | a delegated transfer succeeds if and only if owner or worker relay it, the key matches, the sender signed, the nonce is the stored one, and the amount is positive, covered and fits |
| LedgerOutcomes.MintSucceedsIff | contracts/ecotoken_registry/src/lib.rs:171-175 | a mint succeeds if and only if owner or worker call it and balance and supply stay in range |
| LedgerOutcomes.MintAllSucceedsIff | contracts/ecotoken_registry/src/lib.rs:197-203 | a list of mints succeeds if and only if balance and supply are in range after each of them |
| LedgerOutcomes.RegisterSucceedsIff | contracts/ecotoken_registry/src/lib.rs:177-219 | a plain batch succeeds if and only if the caller is privileged, the id new, the lists as long as each other and not empty, and all partial sums in range |
| LedgerOutcomes.RegisterEffect | contracts/ecotoken_registry/src/lib.rs:197-215 | every address gains what the lists give it, the supply their sum, and the record holds time, sum and count |
| LedgerOutcomes.WeighedSucceedsIff | contracts/ecotoken_registry/src/lib.rs:221-297 | a weighed batch succeeds if and only if the caller is privileged, the id new, the lists match, the reward is in range and not zero, and its mints fit |
| LedgerOutcomes.RoomyMintsFit | contracts/ecotoken_registry/src/lib.rs:272-280 | if the whole reward fits on every balance and the supply, the mints fit for any households and collector |
| LedgerOutcomes.RewardTotalIs | contracts/ecotoken_registry/src/lib.rs:243-250 | the computed reward is the sum of the lines' rewards, or an overflow if a product or partial sum is out of range |
| LedgerOutcomes.LineRewardIs | contracts/ecotoken_registry/src/lib.rs:243-250 | a line's reward is weight times rate over a thousand, the fraction dropped on either side of zero |
| LedgerOutcomes.WeighedRecord | contracts/ecotoken_registry/src/lib.rs:282-296 | the record of a weighed batch holds time, reward sum and number of recipients |
| LedgerOutcomes.NotarizeOutcome | contracts/ecotoken_registry/src/lib.rs:300-336 | a notarisation succeeds if and only if owner or worker call it with a new id, and records its time, no reward and one recipient |
| LedgerOutcomes.InitialPrices | contracts/ecotoken_registry/src/lib.rs:55-78 | the price of every material after initialisation, in numbers, and the share |
| LedgerContract.Registry.Initialise | contracts/ecotoken_registry/src/lib.rs:47-85 | succeeds exactly once; from then on exactly owner and worker are privileged, every material has its initial rate, the share is 20%, and no token moved |
| LedgerContract.Registry.ChangeWorker | contracts/ecotoken_registry/src/lib.rs:89-99 | afterwards exactly the owner and the new worker are privileged; balances, batches and rates are untouched |
| LedgerContract.Registry.SetMaterialRate | contracts/ecotoken_registry/src/lib.rs:340-346 | the rate counts for this material and changes no reward computed over other materials and no recorded batch |
| LedgerContract.Registry.ApproveSpender | contracts/ecotoken_registry/src/lib.rs:144-149 | afterwards a transfer_from of the pair succeeds exactly for positive amounts within both the approval and the balance; other pairs are untouched |
| LedgerContract.Registry.TransferTokens | contracts/ecotoken_registry/src/lib.rs:151-154 | moves the amount or leaves storage untouched |
| LedgerContract.Registry.TransferOnBehalf | contracts/ecotoken_registry/src/lib.rs:156-167 | spends the allowance and moves the amount, or undoes the allowance write when the move panics |
| LedgerContract.Registry.TransferDelegated | contracts/ecotoken_registry/src/lib.rs:384-428 | moves the amount if and only if owner or worker relay it, key, signature and nonce are right and the amount is covered; otherwise undoes even the nonce write |
| LedgerContract.Registry.MintTokens | contracts/ecotoken_registry/src/lib.rs:171-175 | for owner or worker, and while in range, credits one address and the supply; otherwise nothing |
| LedgerContract.Registry.MintList | contracts/ecotoken_registry/src/lib.rs:272-280 | mints every entry in order, or reports the panic of the first that overflows |
| LedgerContract.Registry.MintAmounts | contracts/ecotoken_registry/src/lib.rs:197-203 | the minting loop performs every mint and adds up every amount, or reports a panic |
| LedgerContract.Registry.RegisterBatch | contracts/ecotoken_registry/src/lib.rs:177-219 | mints all amounts and records their total, or rolls every mint back |
| LedgerContract.Registry.ComputeReward | contracts/ecotoken_registry/src/lib.rs:243-250 | the loop yields the sum of per-line truncated rewards, or none on overflow |
| LedgerContract.Registry.RegisterBatchWeighed | contracts/ecotoken_registry/src/lib.rs:221-297 | split, mints and record of a weighed batch, or no change |
| LedgerContract.Registry.NotarizeReceipt | contracts/ecotoken_registry/src/lib.rs:300-336 | records a batch without reward; no token moves, other records stay, and no registration entry point accepts the id any more |
| LedgerContract.Registry.InternalMint | contracts/ecotoken_registry/src/lib.rs:452-461 | adds to one balance and the supply, panicking on overflow |
| LedgerContract.Registry.InternalTransfer | contracts/ecotoken_registry/src/lib.rs:463-482 | the reads-before-writes transfer with its three panics |
| ChannelPool.RunIsExclusive | src/blockchain/services/stellar-sequence-manager.service.ts:110-162 | with the primary key outside the pool, the in-use set is exactly the leased pool keys and no key has two holders, in every run of any number of callers |
| ChannelPool.FinishedRunLeavesNothingInUse | src/blockchain/services/stellar-sequence-manager.service.ts:148-161 | nothing is in use once every caller has finished, by return, throw or timeout |
| ChannelPool.PrimaryInPoolIsShared | src/blockchain/services/stellar-sequence-manager.service.ts:125-129 | with the primary key in the pool, some run gives it to two callers at once |
| ChannelPool.ExclusiveIffPrimaryOutsidePool | src/blockchain/services/stellar-sequence-manager.service.ts:110-162 | leases are exclusive in all runs if and only if the primary key is not in the pool |
| ChannelPool.DefaultPoolIsShared | src/blockchain/services/stellar-sequence-manager.service.ts:55-89 | for the pool built from configured channels: exclusive if and only if some are configured and none is the primary |
| ChannelPool.FirstFree | src/blockchain/services/stellar-sequence-manager.service.ts:114-120 | the scan yields a pool key not in use, or none only if all are in use |
| ChannelPool.FirstFreeIsFirst | src/blockchain/services/stellar-sequence-manager.service.ts:114-120 | it is the first such key of the pool |
| ChannelPool.SequenceManager.constructor | src/blockchain/services/stellar-sequence-manager.service.ts:37-90 | the pool is the configured keys, or the primary key alone |
| ChannelPool.SequenceManager.TryAcquire | src/blockchain/services/stellar-sequence-manager.service.ts:113-120 | one pass marks and returns the first free key, or changes nothing |
| ChannelPool.SequenceManager.ReleaseChannelAccount | src/blockchain/services/stellar-sequence-manager.service.ts:135-139 | the next scan finds a free key, other leases keep their marks, and exclusive leases stay exclusive |
| AccountLock.LockStaysWithItsSetter | src/blockchain/services/stellar-sequence-manager.service.ts:184-219 | in every run a lock keeps its owner until it expires or that owner releases it |
| AccountLock.ReleaseSparesOthers | src/blockchain/services/stellar-sequence-manager.service.ts:202-219 | in every run a release removes at most the lock its own caller acquired |
| AccountLock.RunIsOwned | src/blockchain/services/stellar-sequence-manager.service.ts:184-214 | every lock in place belongs to a caller for that account that got past trying |
| AccountLock.EntersIff | src/blockchain/services/stellar-sequence-manager.service.ts:181-205 | a caller gets inside exactly by a SET of its own on a free key, or without the lock by giving up or an error |
| AccountLock.LockTakenIff | src/blockchain/services/stellar-sequence-manager.service.ts:184-200 | a lock becomes a waiting caller's if and only if it was free and that caller's SET was applied, also when its answer is an error |
| AccountLock.LockFreedIff | src/blockchain/services/stellar-sequence-manager.service.ts:184-219 | a lock goes if and only if it expires or the release of the caller that acquired it arrives |
| AccountLock.FreeLockIsTaken | src/blockchain/services/stellar-sequence-manager.service.ts:184-188 | a SET on a free key takes the lock for its caller |
| AccountLock.ReleaseFreesOwn | src/blockchain/services/stellar-sequence-manager.service.ts:206-214 | a release that arrives frees the caller's own lock and no other, and the next waiting caller gets it |
| AccountLock.NoLockOutlivesItsCall | src/blockchain/services/stellar-sequence-manager.service.ts:169-220 | in every run whose messages get through, each lock in place belongs to a caller still inside or leaving |
| AccountLock.StepGuardedIff | src/blockchain/services/stellar-sequence-manager.service.ts:181-200 | a step keeps everyone inside protected if and only if it neither expires a lock under its owner nor admits a caller without the lock |
| AccountLock.RunGuardedIff | src/blockchain/services/stellar-sequence-manager.service.ts:169-220 | everyone inside is protected throughout a run if and only if no step breaks that discipline |
| AccountLock.MutualExclusion | src/blockchain/services/stellar-sequence-manager.service.ts:164-168 | in disciplined runs at most one caller is inside per account |
| AccountLock.ExclusionIff | src/blockchain/services/stellar-sequence-manager.service.ts:169-220 | at most one caller is inside per account in all runs if and only if no lock expires under its owner, nobody stops waiting and no SET errs |
| AccountLock.ExpiryBreaksExclusion | src/blockchain/services/stellar-sequence-manager.service.ts:184-200 | where locks may expire under their owner, some run has two callers inside |
| AccountLock.EnteringWithoutLockBreaksExclusion | src/blockchain/services/stellar-sequence-manager.service.ts:182-200 | where a caller may stop waiting, or its SET may err, some run has it inside next to the owner |
| ChannelRuns.PartsOfRun | src/blockchain/services/stellar-sequence-manager.service.ts:141-162 | a run of leases and locks together is a run of each on its own |
| ChannelRuns.RunHeldOnce | src/blockchain/services/stellar-sequence-manager.service.ts:110-139 | a key other than the primary has at most one holder in every run, even when the primary is in the pool |
| ChannelRuns.TimedOutCallersShareThePrimary | src/blockchain/services/stellar-sequence-manager.service.ts:125-129 | with two keys or more, two callers that time out run with the primary key at once, without a lock |
| ChannelRuns.SingleKeyIsServed | src/blockchain/services/stellar-sequence-manager.service.ts:148-157 | with a single key a call leases it, takes its lock and runs |
| ChannelRuns.LeaseOutlastsLock | src/blockchain/services/stellar-sequence-manager.service.ts:141-162 | in every run a call keeps its lease from before it asks for the account lock until after it has given the lock back |
| ChannelRuns.OneCallbackPerKeyIff | src/blockchain/services/stellar-sequence-manager.service.ts:141-162 | in all undisturbed runs at most one callback runs per key if and only if the pool has at most one key or the key is not the primary |
| RpcFailover.CandidatesAreHealthyInTierOrder | src/blockchain/services/stellar-rpc-manager.service.ts:290-308 | the candidates are the healthy nodes, each once, PRIMARY before SECONDARY before FALLBACK |
| RpcFailover.Soonest | src/blockchain/services/stellar-rpc-manager.service.ts:405-408 | the emergency node is the first with the least cooldown |
| RpcRuns.HealthBookkeeping | src/blockchain/services/stellar-rpc-manager.service.ts:278-395 | in every run of concurrent calls a node is UNHEALTHY exactly from three consecutive failures, and cools exactly while UNHEALTHY |
| RpcRuns.UnhealthyIffThreeFailuresInARow | src/blockchain/services/stellar-rpc-manager.service.ts:278-395 | over every run, a node is UNHEALTHY if and only if three or more of its attempts failed since it last answered or had its cooldown lifted |
| RpcRuns.RequestsAreConserved | src/blockchain/services/stellar-rpc-manager.service.ts:310-421 | on every node requests are successes plus failures plus attempts in flight; emergency retries count in none |
| RpcCounters.CountersAreTallies | src/blockchain/services/stellar-rpc-manager.service.ts:310-386 | in every run each node's requests, successes and failures are the numbers of attempts started, answered and failed on it |
| RpcCounters.CursorCountsAnswers | src/blockchain/services/stellar-rpc-manager.service.ts:363-364 | in every run the cursor is the number of answers modulo 10000, emergency answers not counted |
| RpcCounters.ActiveAnsweredLast | src/blockchain/services/stellar-rpc-manager.service.ts:362-362 | the active node is the one that answered last |
| RpcCounters.CooldownIsLastDrawn | src/blockchain/services/stellar-rpc-manager.service.ts:389-395 | in every run a node's cooldown is the one drawn at its last failure from the third in a row on, zero once it answered or was lifted |
| RpcCounters.FoundHealthyIff | src/blockchain/services/stellar-rpc-manager.service.ts:278-297 | in every run a new call finds a node healthy if and only if it has not failed three times in a row or the drawn cooldown is over |
| RpcCounters.SucceedsIff | src/blockchain/services/stellar-rpc-manager.service.ts:349-421 | a call succeeds if and only if an attempt it waits for, or its emergency retry, is answered |
| RpcCounters.FailsIff | src/blockchain/services/stellar-rpc-manager.service.ts:262-437 | a call fails if and only if there is no node, the emergency retry fails, or the last candidate fails while all nodes are candidates |
| RpcBound.AttemptsAreBounded | src/blockchain/services/stellar-rpc-manager.service.ts:310-429 | the steps of a call start between one and n attempts: on nodes it found healthy, each at most once and better tiers first, then at most one emergency retry, after a failure on each of them |
| RpcBound.FailsOnlyAfterAll | src/blockchain/services/stellar-rpc-manager.service.ts:310-436 | a call gives up only after a step of the run failed its attempt on every node it found healthy and, when those are fewer than n, a step sent it to a node of least cooldown and another failed that retry |
| RpcBound.RetryGoesToSoonest | src/blockchain/services/stellar-rpc-manager.service.ts:403-408 | a retry goes to the first node of least cooldown at the moment it starts |
| RpcBound.EmergencyNodeIsCoolingIffAllAre | src/blockchain/services/stellar-rpc-manager.service.ts:403-420 | a step that starts the emergency retry goes to a cooling node if and only if no node is healthy at that moment |
| RpcBound.RetryOnTheNodeThatFailed | src/blockchain/services/stellar-rpc-manager.service.ts:403-420 | in some run of two nodes the retry goes to the very node that has just failed, while the other cools |
| RpcFairness.SlotsDistinctIff | src/blockchain/services/stellar-rpc-manager.service.ts:302-306 | k consecutive cursor values give k different slots if and only if there is no wrap among them or the wrap is a multiple of k |
| RpcFairness.RoundRobinIsFairIff | src/blockchain/services/stellar-rpc-manager.service.ts:290-364 | k consecutive first-try successes use each of the k top-tier nodes once if and only if the cursor does not wrap or k divides 10000 |
| RpcFairness.WrapServesANodeTwice | src/blockchain/services/stellar-rpc-manager.service.ts:302-364 | with three healthy top-tier nodes, calls 10000 and 10001 of a run of first-try successes go to the same node |
| RpcManager.StellarRpcManager.LiftCooldowns | src/blockchain/services/stellar-rpc-manager.service.ts:278-288 | the loop revives exactly the nodes whose cooldown ran out |
| RpcManager.StellarRpcManager.TierPass | src/blockchain/services/stellar-rpc-manager.service.ts:295-307 | one tier, filtered and rotated |
| RpcManager.StellarRpcManager.CollectCandidates | src/blockchain/services/stellar-rpc-manager.service.ts:290-308 | the three passes give the candidate list |
| RpcManager.StellarRpcManager.AttemptSucceeded | src/blockchain/services/stellar-rpc-manager.service.ts:357-363 | an answer puts its node among the candidates of every later call, and changes no other node's standing; health stays consistent |
| RpcManager.StellarRpcManager.AttemptFailed | src/blockchain/services/stellar-rpc-manager.service.ts:385-395 | a failure removes its node from the candidates of every later call exactly from the third in a row on, and changes no other node's standing |
| RpcManager.StellarRpcManager.ExecuteWithFailover | src/blockchain/services/stellar-rpc-manager.service.ts:261-437 | a call alone is a run of the concurrent specification whose steps settle its attempts one by one as the answers say; it succeeds if and only if one of the attempts it may make is answered |
| CollectionRuns.LifecycleInvariant | src/collections/services/collection-lifecycle.service.ts:56-182 | in every run: served requests have collector and center, open ones neither collector nor escrow, and a household has at most one request not over |
| CollectionRuns.TerminalIsClosed | src/collections/services/collection-lifecycle.service.ts:130-147 | no call takes a request out of the terminal statuses |
| CollectionRuns.TerminalForever | src/collections/states/collection-state-machine.ts:72-79 | a terminal request is terminal at the end of every longer run |
| CollectionRuns.TerminalStatusChangesOnlyByCollectorCancel | src/collections/services/collection-lifecycle.service.ts:130-147 | among service calls, a terminal status changes if and only if its own collector cancels |
| CollectionRuns.CompletedRequestIsCancelled | src/collections/services/collection-lifecycle.service.ts:130-147 | a run of four calls completes a request, and its collector's cancel makes it CANCELLED, which the documented table does not allow |
| CollectionRuns.LeavesTableIff | src/collections/states/collection-state-machine.ts:10-48 | exactly which admitted calls make a transition outside the documented table |
| CollectionRuns.AuctionInvariant | src/collections/services/collection-auction.service.ts:34-397 | in every run: one bid per center, at most one accepted bid, which carries the agreed center and rates, none in a running auction, one in an assigned auction |
| CollectionRuns.AssignedAuctionHasOneWinner | src/collections/services/collection-auction.service.ts:229-271 | an assigned request has exactly one accepted bid, whose center and rates are the request's |
| CollectionRuns.BidsWereSubmitted | src/collections/services/collection-auction.service.ts:105-137 | every stored bid was submitted by its own center for its own request with the stored rates |
| CollectionRuns.AgreementWasOffered | src/collections/services/collection-auction.service.ts:229-339 | in every run the agreed rates of a request were offered for it by the very center assigned to it, by bid or direct claim |
| CollectionRuns.RunningAuctionHasNoChosenBid | src/collections/workers/collections-timeout.worker.ts:99-114 | the accepted-bid test before expiring an auction never holds one back |
| StaleWrites.RowWriteKeepsLifecycleIff | src/collections/workers/collections-timeout.worker.ts:62-68 | writing a row keeps the lifecycle if and only if the row is sound and does not revive a terminal request |
| StaleWrites.StaleWriteKeepsLifecycleIff | src/collections/workers/collections-timeout.worker.ts:46-200 | one write of a row selected earlier keeps the lifecycle if and only if it closes the request, or is the inactivity step on a request not over, or an auction fallback on an open one |
| StaleWrites.RunKeepsLifecycleIff | src/collections/workers/collections-timeout.worker.ts:46-200 | in every run of calls and late writes, each step keeps the lifecycle if and only if each late write finds its row in a status it may still write |
| StaleWrites.LifecycleIsKeptIff | src/collections/workers/collections-timeout.worker.ts:88-187 | all runs with late writes of rows that were due earlier keep the lifecycle if and only if neither inactivity steps nor auction fallbacks come late |
| StaleWrites.LateInactivityRevivesRequest | src/collections/workers/collections-timeout.worker.ts:138-160 | a run in which the late inactivity step brings a cancelled request back beside the household's new one |
| StaleWrites.LateFallbackRevivesRequest | src/collections/workers/collections-timeout.worker.ts:88-115 | a run in which the late auction fallback brings a cancelled request back |
| StaleWrites.LateClosingOverwritesCompletion | src/collections/workers/collections-timeout.worker.ts:46-68 | a run in which the late pending timeout turns a completed request into a cancelled one, the lifecycle kept throughout |
| StaleWrites.StaleWriteIs | src/collections/workers/collections-timeout.worker.ts:88-218 | a timely write is the step itself; a late one writes the same status, expires the same bids and leaves all other rows and bids alone |
| StaleWrites.StaleWriteKeepsAuctions | src/collections/workers/collections-timeout.worker.ts:99-115 | any late write keeps bids, winners and agreements consistent |
| StaleWrites.LateRunKeepsAuctions | src/collections/workers/collections-timeout.worker.ts:88-187 | auction consistency holds in every run, whatever late writes it has |
| CollectionEffects.ClosingCall | src/collections/services/collection-lifecycle.service.ts:130-178 | every closing call returns the escrow, frees the household and rules out any later completion |
| CollectionEffects.GivingBackCall | src/collections/services/collection-lifecycle.service.ts:187-246 | an abandoned or inactive request loses collector and escrow and is free for any approved collector |
| CollectionEffects.TravellingCall | src/collections/services/collection-tracking.service.ts:41-167 | a started route can be verified but neither abandoned nor taken back, holds the same escrow, and repeating the call changes nothing |
| CollectionEffects.OpeningCall | src/collections/services/collection-lifecycle.service.ts:604-728 | a new request has no bids or escrow, and its household can create no other |
| CollectionEffects.EditingCall | src/collections/services/collection-lifecycle.service.ts:343-396 | editing items changes no escrow and not whether any later call is admitted |
| CollectionEffects.TakingCall | src/collections/services/collection-auction.service.ts:293-339 | a taken automatic request can be taken by no other center and accepted by any approved collector |
| CollectionEffects.ExpiringCall | src/collections/services/collection-auction.service.ts:369-383 | after the auction fallback no bid of the request can be chosen or placed |
| CollectionEffects.RowOnlyExpiringCall | src/collections/services/collection-lifecycle.service.ts:580-598 | after the lifecycle fallback every pending bid can still be chosen, and none can be placed |
| CollectionRuns.EscrowStaysWithinBalance | src/collections/services/collection-escrow.service.ts:54-103 | a collector's total escrow never exceeds any bound of the on-chain balances at its acceptances, and of the deposits where the chain read zero |
| CollectionRuns.EscrowAccounting | src/collections/services/collection-lifecycle.service.ts:103-175 | accepting adds exactly the required escrow to the accepting collector, ending a service releases exactly what its request held, and nothing else moves escrow |
| CollectionRules.AdmittedIff | src/collections/services/collection-lifecycle.service.ts:56-182 | a call on a request is admitted if and only if it comes from the request's own collector or household, in its status, with the right answers, bids and balances |
| CollectionRules.CreationAdmittedIff | src/collections/services/collection-lifecycle.service.ts:613-655 | a request is created if and only if the input is valid, the id new, and every other request of the household over |
| CollectionRules.SolvencyByCases | src/collections/services/collection-escrow.service.ts:65-98 | with anything on the chain the deposits do not count; with nothing there they decide |
| CollectionRules.RowIsWritten | src/collections/services/collection-lifecycle.service.ts:103-175 | each field of a request is written by its own calls with what they were given, and left alone by all others |
| CollectionRules.CreatedIs | src/collections/services/collection-lifecycle.service.ts:672-713 | a new request has an auction running if that is its mode, and nothing agreed, assigned or held |
| CollectionRules.BidIsWritten | src/collections/services/collection-auction.service.ts:105-271 | what becomes of every stored bid under every call: offered, withdrawn, accepted, rejected, expired or untouched |
| CollectionRules.NewBidIs | src/collections/services/collection-auction.service.ts:113-137 | only a submission adds a bid, for a center that had none |
| CollectionRules.SelectableBids | src/collections/services/collection-auction.service.ts:172-227 | a submitted bid can be selected, a withdrawn one cannot, and after a selection none of the request can |
| CollectionRules.HeldIs | src/collections/services/collection-escrow.service.ts:85-95 | escrow is held exactly on the requests a collector is serving |
| CollectionServices.Tables.CreateRequest | src/collections/services/collection-lifecycle.service.ts:604-728 | refuses a household found busy by search; otherwise opens a request without bids or escrow, after which the household can create no other |
| CollectionServices.Tables.ActiveEscrow | src/collections/services/collection-escrow.service.ts:85-95 | the loop adds up what active requests hold back |
| CollectionServices.Tables.ValidateSolvency | src/collections/services/collection-escrow.service.ts:54-103 | with an on-chain balance passes exactly when that covers active escrow plus the requirement, whatever the deposits; without one exactly when the deposits do |
| CollectionServices.Tables.AcceptRequest | src/collections/services/collection-lifecycle.service.ts:71-128 | assigns the collector and raises its escrow by exactly the required amount, or changes nothing; all invariants kept |
| CollectionServices.Tables.FindActive | src/collections/services/collection-lifecycle.service.ts:613-631 | finds a request of the household that is not over, or shows there is none |
| CollectionServices.Tables.CancelAsCollector | src/collections/services/collection-lifecycle.service.ts:130-147 | ends the request in any status: escrow returned, an active household freed, no completion possible; all invariants kept |
| CollectionServices.Tables.CancelAsHousehold | src/collections/services/collection-lifecycle.service.ts:150-178 | ends an open request: nobody's escrow moves and the household is free; all invariants kept |
| CollectionServices.Tables.AbandonRequest | src/collections/services/collection-lifecycle.service.ts:187-246 | returns escrow and puts the request back on offer to any approved collector; all invariants kept |
| CollectionServices.Tables.EditRequest | src/collections/services/collection-lifecycle.service.ts:343-396 | edits items while PENDING, which affects no escrow and no later admission |
| CollectionServices.Tables.NoShow | src/collections/services/collection-lifecycle.service.ts:401-447 | closes an arrived request as unattended: escrow returned, household freed |
| CollectionServices.Tables.RejectAtDoor | src/collections/services/collection-lifecycle.service.ts:513-562 | closes an arrived request as rejected: escrow returned, household freed |
| CollectionServices.Tables.BeginRoute | src/collections/services/collection-tracking.service.ts:41-87 | the request can be verified but no longer abandoned or taken back; repeating the call changes nothing |
| CollectionServices.Tables.Arrive | src/collections/services/collection-tracking.service.ts:124-167 | as for the route, in ARRIVED; repeating the call changes nothing |
| CollectionServices.Tables.AtomicCompleteRequest | src/collections/repositories/collections.repository.ts:115-136 | reports whether it completed an active row; then escrow is returned, the household free, and no further completion possible |
| CollectionServices.Tables.FindBid | src/collections/services/collection-auction.service.ts:105-107 | finds the bid of a center on a request if there is one |
| CollectionServices.Tables.PlaceBid | src/collections/services/collection-auction.service.ts:34-137 | updates the existing bid or creates one |
| CollectionServices.Tables.TakeBackBid | src/collections/services/collection-auction.service.ts:172-191 | withdraws a pending bid |
| CollectionServices.Tables.ChooseBid | src/collections/services/collection-auction.service.ts:196-271 | accepts one bid, rejects all others of the request, assigns center and rates |
| CollectionServices.Tables.TakeAutomatic | src/collections/services/collection-auction.service.ts:293-339 | the first center takes an unassigned automatic request; afterwards no other can, and any approved collector may accept it |
| CollectionServices.Tables.ExpireOne | src/collections/services/collection-auction.service.ts:369-383 | the accepted-bid search never stops it; afterwards no bid of the request can be chosen or placed |
| CollectionServices.Tables.HasAcceptedBid | src/collections/workers/collections-timeout.worker.ts:99-101 | finds an accepted bid of the request if and only if there is one |
| CollectionServices.Tables.Select | src/collections/workers/collections-timeout.worker.ts:49-56 | the selection: due rows only, each once, all of them unless the limit is reached |
| CollectionServices.NextIsDue | src/collections/workers/collections-timeout.worker.ts:58-68 | in one pass, each selected row is still due when its turn to be written comes |
| CollectionServices.SelectionIsExact | src/collections/workers/collections-timeout.worker.ts:49-56 | what is selected is overdue and admitted for its timeout, and below the limit nothing overdue is missed |
| CollectionServices.Tables.ProcessAuctionFallbacks | src/collections/workers/collections-timeout.worker.ts:88-131 | selects running overdue auctions up to the limit and expires each, every write an admitted call; all invariants kept |
| CollectionServices.Tables.ExpireRowOnly | src/collections/services/collection-lifecycle.service.ts:580-598 | one row of the lifecycle fallback: bids stay and can still be chosen |
| CollectionServices.Tables.ProcessPendingTimeouts | src/collections/workers/collections-timeout.worker.ts:46-82 | selects at most 50 overdue pending rows, then cancels each by id without another look, every write an admitted call; all invariants kept |
| CollectionServices.Tables.ProcessAcceptedInactivity | src/collections/workers/collections-timeout.worker.ts:138-187 | selects at most 50 idle rows, then returns each to PENDING without collector, every write an admitted call; all invariants kept |
| CollectionServices.Tables.ProcessArrivedNoShows | src/collections/workers/collections-timeout.worker.ts:194-218 | selects at most 50 late arrived rows, then closes each as unattended, every write an admitted call; all invariants kept |
| VerifyPin.AtMostOneCompletion | src/collections/services/collection-verification.service.ts:53-298 | for any number of interleaved calls, throws, lock expiries and other calls, at most one verifyPin completes a request, which stays terminal |
| VerifyPin.GetsPastChecksIff | src/collections/pipeline/pin-verification-chain.ts:49-155 | a call gets past the checks if and only if the step is its own check with the right PIN, by the request's collector, while the request is being served |
| VerifyPin.RefusedCheck | src/collections/pipeline/pin-verification-chain.ts:92-145 | any other check makes the call throw and leaves tables, credits and lock as they are |
| VerifyPin.NobodySkipsTheChecks | src/collections/services/collection-verification.service.ts:79-95 | in every run, whoever is past the checks or completed the request made such a check before |
| VerifyPin.CreditFollowsCheck | src/collections/services/collection-verification.service.ts:136-187 | in every run, each credit is one credit of a call that made such a check before |
| VerifyPin.TwoCreditsAtMost | src/collections/services/collection-verification.service.ts:142-187 | in every run a call credits at most twice |
| VerifyPin.GetsBehindLockIff | src/collections/services/collection-verification.service.ts:54-60 | a call gets behind the lock if and only if it is new and finds the key free or no Redis |
| VerifyPin.KeyTakenIff | src/collections/services/collection-verification.service.ts:54-57 | the key becomes a call's own if and only if Redis is there, the key is free, and the SET of that new call is applied |
| VerifyPin.KeyFreedIff | src/collections/services/collection-verification.service.ts:294-298 | the key goes if and only if it expires or the delete of some leaving call arrives, whosever the key is |
| VerifyPin.EndsIff | src/collections/services/collection-verification.service.ts:53-60 | a call is over if and only if it was turned away at the key, its SET erred, or its finally block ran, and ending makes no call succeed |
| VerifyPin.WayIsUsedUp | src/collections/services/collection-verification.service.ts:142-187 | each way of crediting is tried once, and the second exactly when the first was not confirmed |
| VerifyPin.ThrowsIff | src/collections/services/collection-verification.service.ts:62-298 | a call throws if and only if an await between lock and update rejects or its check is refused |
| VerifyPin.WinningCompletes | src/collections/repositories/collections.repository.ts:115-136 | a call succeeds only by moving an active request to COMPLETED |
| VerifyPin.StepSerialIff | src/collections/services/collection-verification.service.ts:54-60 | a step keeps calls one at a time if and only if it does not expire the lock under a call |
| VerifyPin.RunSerialIff | src/collections/services/collection-verification.service.ts:53-298 | calls are one at a time throughout a run if and only if no lock expires under one |
| VerifyPin.TwoPastTheChecks | src/collections/services/collection-verification.service.ts:53-95 | where the lock may expire under a call, some run has two calls past all checks at once |
| VerifyPin.LateUnlockDropsAnothersLock | src/collections/services/collection-verification.service.ts:294-298 | where the lock may expire under a call, in some run the unconditional delete removes the lock of a call still inside |
| VerifyPin.CreditedAtMostOnceIff | src/collections/services/collection-verification.service.ts:53-298 | a request is credited at most once in all runs if and only if there is Redis, no lock expires under a call, no credit is reported as an error, no call throws after its credit, and no other call reopens the request under one |
| VerifyPin.CreditedRequestIsOver | src/collections/services/collection-verification.service.ts:136-257 | under those conditions a credited request that nobody is verifying is terminal |
| VerifyPin.CreditedMeansCompletedIff | src/collections/services/collection-verification.service.ts:136-257 | in all runs, a credited request that nobody is verifying was completed by a verifyPin call, if and only if no credit is reported as an error, no call throws after its credit, and no other call reopens or ends the request under one |
| VerifyPin.CancelledAfterCredit | src/collections/services/collection-verification.service.ts:244-257 | a request cancelled between credit and update stays cancelled with its household paid |
| VerifyPin.ThrownCreditIsNotCompleted | src/collections/services/collection-verification.service.ts:136-298 | a call that throws after a credit leaves it without a completion |
| VerifyPin.ConcurrentCallsCreditTwice | src/collections/services/collection-verification.service.ts:53-60 | without Redis, or with an expiry under a call, some run credits twice |
| VerifyPin.UnconfirmedTransferIsRepeated | src/collections/services/collection-verification.service.ts:142-187 | a transfer made but reported as an error is followed by a mint: two credits in one call |
| VerifyPin.ThrowingCallIsRepeated | src/collections/services/collection-verification.service.ts:190-298 | a call that throws after its credit deletes the lock, and a second call credits again |
| VerifyPin.ReopenedRequestIsRepeated | src/collections/services/collection-verification.service.ts:244-257 | a request abandoned between credit and update and accepted again is credited again |
| InventoryRuns.InventoryAgreement | src/b2b/b2b-transfers.service.ts:167-308 | in every run of the five writers no row is negative and each class adds up to IN minus OUT |
| InventoryRuns.OneEntryAgrees | src/inventory/inventory.service.ts:43-77 | a row change and a movement of the same amount in one class keep the agreement |
| InventoryRuns.DispatchAgrees | src/b2b/b2b-transfers.service.ts:291-308 | decrementing all rows and then logging all movements keeps the agreement |
| InventoryRuns.DispatchFits | src/b2b/b2b-transfers.service.ts:167-289 | after the checks every material has its own row in its own class holding at least its positive total |
| InventoryRuns.TakenRow | src/b2b/b2b-transfers.service.ts:291-298 | each chosen row loses exactly its material's total, once |
| InventoryEffects.AggregateIs | src/b2b/b2b-transfers.service.ts:168-173 | the aggregate of a material is the sum of all lines of that normalised name, and exists if and only if there is one |
| InventoryEffects.AggregateTotal | src/b2b/b2b-transfers.service.ts:168-173 | the aggregates add up to all lines |
| InventoryEffects.NamesAre | src/b2b/b2b-transfers.service.ts:168-187 | a material is dispatched if and only if some line names it |
| InventoryEffects.DispatchEffect | src/b2b/b2b-transfers.service.ts:291-308 | an accepted dispatch lowers the stock and raises the OUT total of every class by the sum of its lines, and nothing else |
| InventoryEffects.DispatchRows | src/b2b/b2b-transfers.service.ts:291-298 | each material's sum comes from the row found for it, and no other row moves |
| InventoryEffects.MatchesIs | src/b2b/b2b-transfers.service.ts:193-248 | a case-insensitive match compares letter by letter in upper case, a trimmed one without the spaces around the stored text |
| InventoryEffects.FindFirstIs | src/b2b/b2b-transfers.service.ts:230-274 | a row lookup answers some matching row of the center, or none if and only if the center has none |
| InventoryEffects.AcceptAdmittedIff | src/b2b/b2b-transfers.service.ts:148-289 | a transfer is accepted if and only if it is requested, has positive lines, and for each material a row with enough stock and, where totals were read, room under 95% |
| InventoryEffects.TransferAdmittedIff | src/b2b/b2b-transfers.service.ts:459-493 | a direct dispatch asks for a B2B buyer, positive lines and stock, and nothing else |
| InventoryEffects.LoadedLog | src/blockchain/blockchain.processor.ts:315-356 | a batch logs one IN movement for every positive material, in order, under its normalised name |
| InventoryEffects.LoadedRows | src/blockchain/blockchain.processor.ts:315-345 | each row of the center gains the sum of the positive lines of its material, and no other row moves |
| InventoryEffects.LoadTotal | src/blockchain/blockchain.processor.ts:315-356 | what entered the center rises by all positive lines |
| InventoryEffects.MovementAdmittedIff | src/inventory/inventory.service.ts:27-60 | a movement needs a positive quantity and, going out, as much in the row of that text |
| InventoryEffects.MovementEffect | src/inventory/inventory.service.ts:43-77 | it changes that row and the log by exactly its quantity |
| InventoryEffects.SaleAdmittedIff | src/sales/sales.service.ts:35-86 | a sale needs half a kilogram, a B2B buyer, room under 95% as its queries see it, and stock in the row found |
| InventoryEffects.SaleEffect | src/sales/sales.service.ts:88-104 | it takes its quantity from the row found and logs it |
| MassBalance.RowsAreBacked | src/inventory/inventory.service.ts:43-77 | in every run a row holds at most what was entered under its own text |
| MassBalance.AcceptedDispatchHasEntries | src/b2b/b2b-transfers.service.ts:271-289 | an accepted dispatch has a positive total of entries, so the exemption never waives the rule |
| MassBalance.MassBalanceHolds | src/sales/sales.service.ts:38-86 | in runs whose OUT writers are sales and accepted transfers with read totals, 100 OUT <= 95 IN in every class |
| MassBalance.DispatchBalancedIff | src/b2b/b2b-transfers.service.ts:271-308 | a whole dispatch keeps the balance if and only if each of its materials had room before the first write |
| MassBalance.StepBalancedIff | src/b2b/b2b-transfers.service.ts:271-308 | an accepted call of any writer keeps the balance if and only if what it takes fits in 95% of the entries of its class, all of the class counted |
| MassBalance.RunBalancedIff | src/b2b/b2b-transfers.service.ts:271-308 | the balance holds after every call of a run if and only if every accepted call found that room |
| MassBalance.LockedTotalsSuffice | src/b2b/b2b-transfers.service.ts:208-281 | in any run, an accepted transfer whose locking queries both answered has found that room |
| MassBalance.FallbackTotalsSuffice | src/b2b/b2b-transfers.service.ts:235-281 | with the fallback queries it has, as long as all that left was logged under normalised names |
| MassBalance.SaleTotalsSuffice | src/sales/sales.service.ts:38-67 | so has an accepted sale, under the same condition |
| MassBalance.MassBalanceIff | src/b2b/b2b-transfers.service.ts:148-510 | the balance holds in all runs if and only if there are no manual OUT movements, no direct dispatches and no accepted transfers with unread totals |
| MassBalance.ManualOutBreaksBalance | src/inventory/inventory.service.ts:35-60 | a manual OUT movement breaks the balance |
| MassBalance.DirectTransferBreaksBalance | src/b2b/b2b-transfers.service.ts:459-510 | a direct dispatch breaks the balance |
| MassBalance.UnreadTotalsBreakBalance | src/b2b/b2b-transfers.service.ts:208-231 | with only the totals query failing an accepted dispatch breaks the balance |
| WarehouseServices.Tables.RecordMovement | src/inventory/inventory.service.ts:27-78 | logs the movement and updates or creates the exact row |
| WarehouseServices.Tables.LoadInventory | src/blockchain/blockchain.processor.ts:315-356 | the loop increments or creates a row and logs an IN movement per positive material |
| WarehouseServices.Tables.Sell | src/sales/sales.service.ts:35-104 | checks mass and stock, decrements and logs |
| WarehouseServices.Tables.AggregateLines | src/b2b/b2b-transfers.service.ts:168-173 | repeated and differently written lines add up under one name |
| WarehouseServices.Tables.FindRow | src/sales/sales.service.ts:75-80 | some matching row if there is one |
| WarehouseServices.Tables.FindRows | src/b2b/b2b-transfers.service.ts:189-206 | a matching row for each name that has one |
| WarehouseServices.Tables.SumLog | src/b2b/b2b-transfers.service.ts:208-228 | the logged total of one direction |
| WarehouseServices.Tables.CheckDispatch | src/b2b/b2b-transfers.service.ts:271-289 | passes exactly when every material is within the rule and in stock |
| WarehouseServices.Tables.CheckStock | src/b2b/b2b-transfers.service.ts:477-493 | passes exactly when every material has a row with enough stock |
| WarehouseServices.Tables.TakeOut | src/b2b/b2b-transfers.service.ts:291-308 | all decrements, then all movements |
| WarehouseServices.Tables.Accept | src/b2b/b2b-transfers.service.ts:148-323 | dispatches or changes nothing, under any query outcome |
| WarehouseServices.Tables.Transfer | src/b2b/b2b-transfers.service.ts:459-510 | direct dispatch without the mass rule |
| Text.NormIsCanonical | src/b2b/b2b-transfers.service.ts:170-170 | a name normalised by the service is its own class in the queries |
| Text.NormIs | src/b2b/b2b-transfers.service.ts:170-170 | the normalised name is the upper-cased text without the blanks around it, all of them and nothing else |
| Text.SqlNormIs | src/b2b/b2b-transfers.service.ts:189-199 | the queries' name likewise, for spaces |
| Text.UpperCharIs | src/b2b/b2b-transfers.service.ts:170-170 | letters a to z become A to Z, other characters stay |
| Text.InsensitiveMatchIsInClass | src/sales/sales.service.ts:75-80 | a row equal to a normalised name up to case is in its class |
| Text.LockedRowIsFiledUnderName | src/b2b/b2b-transfers.service.ts:197-206 | a row the locking query finds is filed under the name it was asked for |
| Base58.Encode | src/blockchain/services/ipfs.service.ts:25-35 | the two loops produce one '1' per leading zero byte and the base-58 numeral |
| Base58.EncodeNumber | src/blockchain/services/ipfs.service.ts:25-31 | the division loop yields the base-58 numeral |
| Base58.RoundTrip | src/blockchain/services/ipfs.service.ts:24-35 | decoding any encoding gives back the number and the leading-zero count |
| Base58.EncodingIsInjective | src/blockchain/services/ipfs.service.ts:24-35 | different byte strings of any lengths have different encodings |
| Base58.AlphabetDecodes | src/blockchain/services/ipfs.service.ts:24-24 | the decoder reads every alphabet character, and only '1' as zero |
| Base58.AlphabetIsOrdered | src/blockchain/services/ipfs.service.ts:24-24 | the alphabet text lists the six character ranges in order |
| Base58.CidShape | src/blockchain/services/ipfs.service.ts:22-35 | every SHA-256 multihash encodes to 46 characters starting with Qm |
| Base58.ComputeIpfsCidV0 | src/blockchain/services/ipfs.service.ts:16-36 | the CID of a digest has that shape and decodes to the multihash |
| GreedyTrip.GreedyOrderIsGreedy | src/routing/routing.service.ts:446-458 | the order is a permutation in which each stop beats all later ones from where it is chosen, the earlier input on ties |
| GreedyTrip.GreedyIsUnique | src/routing/routing.service.ts:446-458 | there is only one such order |
| GreedyTrip.FindNearest | src/routing/routing.service.ts:447-456 | the inner loop finds the nearest, earliest on ties |
| GreedyTrip.Interpolate | src/routing/routing.service.ts:467-473 | three points per leg, the last at its end |
| GreedyTrip.ThirdsAreEqual | src/routing/routing.service.ts:467-473 | the points cut a leg into equal thirds |
| GreedyTrip.GreedyTripFallback | src/routing/routing.service.ts:432-477 | stops, numbering 1..n, first indices, path length and 1 + 3n points of the greedy order |
| GreedyTrip.PathLengthAppend | src/routing/routing.service.ts:458-459 | the accumulated distance is the length of the path so far |
| GreedyTrip.OriginalIndexIsOrder | src/routing/routing.service.ts:460-464 | without repeated waypoint objects the reported indices are the visiting order |

## Left out

- Host functions of the contract: Ed25519 verification, XDR serialisation, address-to-key matching, events and TTL extension; where a call depends on one, its answer is an input.
- CreateMovement: quantities are whole grams instead of floating-point kilograms stored with three decimals, so no binary rounding is modelled; the 95% rule is exact.
- Norm: upper-cases ASCII letters and trims space, tab, line feed and carriage return; other Unicode case mappings and blanks are not modelled, nor are pattern characters in case-insensitive comparison.
- CreateSale: its reads and its transaction are one step, as are those of every inventory and collection call except `verifyPin`; interleavings inside one call are not modelled.
- LoadBatch: only the inventory transaction of batch processing; notarisation, manifests and job retries are not modelled.
- GreedyTripFallback: distances are any function into the reals, so haversine, NaN, coordinate rounding to six decimals and the duration estimate are not modelled.
- ComputeIpfsCidV0: SHA-256 is any 32 bytes.
- ExecuteWithFailover: the active timeout, abort signals, metrics and the circuit breaker around the call are not modelled; an attempt succeeds or fails. Its sequential method draws the remaining cooldown ends from a list.
- AccountLock, ChannelRuns and VerifyPin are state machines over the steps between awaits, without an object, because what matters in them is the interleaving; the polling loops appear as repeated steps.
- PlaceBid: the estimated totals of a bid and the two-decimal checks on rates are not modelled; a bid's rates are the ones finally stored.
- AcceptRequest: the reward strategy is any non-negative amount, and balances are the whole numbers the chain and the payment table report.
- Create: coordinates, photos, PIN generation and weight limits are one validity answer.
- findOpenBatch and createOpenBatch: sub-batch rows are not modelled; a completion stores whatever batch id it is given.
- Timeouts: the isRunning flag and failing updates. In the run theorems of `CollectionRuns` and `VerifyPin` each row update is one step that looks at its row; `StaleWrites` has the runs in which it does not. The selection loop of the lifecycle service's fallback is not modelled, only its row update.
- AcceptTransfer: a failing query is one that fails on the client's side. As a statement error of the database it would abort the transaction, so that the later writes were refused too.
- AtomicCompleteRequest: its UPDATE names the columns tokensRewarded, blockchainTxHash and completedAt, which neither prisma/schema.prisma nor a migration has; the model assumes that they exist. Without them the statement errs and every verifyPin call that gets that far throws, after its credit.
- Check: whether the PIN matches, the attempt limit is not reached and the weights are valid is one answer.
- Credit: at most one transfer and one mint for each verifyPin call; retries inside the chain client and the treasury commission are not modelled.
- Ratings, reputation, fees, notifications, websockets, KYC, route telemetry, batch status transitions and settlement services.
- RPC node configuration from the environment: the schedule is proved for any list of fresh nodes.
