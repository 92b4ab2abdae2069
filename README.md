# NULS profit-distribution contracts, modelled in Dafny

The repository holds two NULS smart contracts written in Java.

- `Profits` keeps a shareholder registry. The registry is a `Map<Address, Boolean>` flag table kept beside an `ArrayList<Address>`.
- `Profits.profitDistribution` floor-divides the contract's whole balance by the length of the list. When that share is at least `MIN_NULS_AMOUNT` (1,000,000 base units), it pays every list entry the share, in list order, and emits one `RewardPaid` event per entry. It records each entry's all-time figure as it pays it, between the transfer and the event, and after the loop adds the whole pool to the all-time total.
- `Stake` has a copy of that distributor without counters. It also holds the fields and the update step of a Synthetix-style reward-per-token accrual engine, with fixed-point scale 10^8.
- Both contracts guard distribution with a boolean reentrancy lock. Admin setters are gated by the `rewardDistribution` address.

The model works on values. The host's inputs and outputs become explicit:

- the contract balance `Msg.address().balance()` is the parameter `pool`;
- `Msg.sender()` is `caller`;
- `lastTimeRewardApplicable()` is `now`;
- `Address.transfer` and `emit` append, in order, to one ghost log `effects` of `Pay` and `Emit` entries, so the interleaving of transfers and events is visible;
- a failing `require` or a thrown exception makes a call return `Reverted(e)` with every field unchanged, as the host's revert does.

`BigInteger` is `int`. `BigInteger.divide` rounds toward zero; this is `Chain.Divide`. A `null` reference is `Option.None`. A map lookup that finds nothing reads as zero wherever the source makes it so.

Files:

- `chain.dfy` holds addresses, errors, effects and truncating division.
- `payout.dfy` holds the equal split.
- `shareholders.dfy` holds the registry as a value, with its operations as functions.
- `accrual.dfy` holds the accrual engine.
- `profits.dfy` and `stake.dfy` hold the two contracts as classes. Their fields are the Java fields. Their methods update those fields step by step and are proved equal to the value-level functions.

Behaviour reproduced from the code as written, where it differs from what the code itself aims at. The `else` branch at `Profits.java:185` adds the share to the old figure, and the field comment at `Profits.java:38` calls the table the all-time profits earned by each shareholder, so a running sum is meant:

- `Profits.java:182` looks up the `Address`-keyed table with the `int` loop index. That lookup never finds an entry, so a paying round sets each listed shareholder's entry to that round's share instead of adding to it (`Payout.Credited`, `ProfitsContract.CreditOverwrites`). The branch at `Profits.java:185` that would add to the old figure is never taken. The all-time total still grows by the whole pool, not by share times count.

Behaviour of the code as written that a reader might not expect, reproduced as it is:

- `addShareholder` and `removeShareholder` in `Profits` have no `onlyRewardDistribution` check; the code files them under its "non-admin state modifiable functions" header (`Profits.java:150-154`), while only `setRewardDistribution` and `recoverNuls` sit under the admin header (`Profits.java:218-222`). `initialize` has no admin check and no once-only guard either, so a second call lists addresses twice. `addShareholder` refuses an address that has no flag at all ("Invalid Shareholder"), so only an address removed earlier can be added.
- `Profits.allTimeEarned(account)` ignores its argument and returns the global total, the all-time rewards its doc comment (`Profits.java:91-95`) describes.
- `Stake.java` does not compile as committed, and is read as evidently meant:
  - the accrual fields it uses (`rewardPerTokenStored`, `rewardRate`, `rewards`, `userRewardPerTokenPaid`, `_balances`) are declared as fields of the model and start like the declared fields of the same type: the two `BigInteger`s at zero, as `_totalSupply = BigInteger.ZERO` at `Stake.java:39`, and the three maps empty, as the `new HashMap` at `Stake.java:41`;
  - `initialize` lacks a return type and names `shareholders_`; it is read as appending the given addresses;
  - `profits.divide(shareholdersList.size())` divides by an `int`; it is read as floor division by the list length.
  - the field initialiser `new ArrayList<Address>;` lacks its `()`; it is read as an empty list.

## Model

| member | source | states |
|---|---|---|
| Chain.Divide | src/main/java/Stake.java:325-330 | `BigInteger.divide`: the quotient's magnitude is the floor of the operands' magnitudes, and a non-zero quotient is negative exactly when the operands' signs differ (rounding toward zero) |
| Chain.DivideRemainder | src/main/java/Stake.java:325-330 | the remainder law of `BigInteger.divide`: the remainder left by the quotient is smaller in magnitude than the divisor and has the dividend's sign; on a non-negative dividend and positive divisor it is floor division |
| Chain.DivideMonotone | src/main/java/Stake.java:349-350 | truncating division by a positive divisor is monotone in the dividend |
| Payout.Share | src/main/java/Profits.java:172-174 | the share times the number of entries fits in the pool, the leftover is below one unit per entry, and the share never exceeds the pool |
| Payout.Pays | src/main/java/Profits.java:176 | a round pays when the share is at least `MIN_NULS_AMOUNT` (also `Stake.java:223`); a paying round needs at least that amount in the pool |
| Payout.PaysIff | src/main/java/Profits.java:176 | a round pays exactly when the pool is at least `MIN_NULS_AMOUNT` times the list length (both directions) |
| Payout.PaidRound | src/main/java/Profits.java:178-190 | a paying round yields two effects per entry, in list order: a transfer of the share to entry i, then `RewardPaid(entry i, share)` |
| Payout.TransferRound | src/main/java/Stake.java:223-227 | a paying `Stake` round yields exactly one transfer of the share per entry, in list order |
| Payout.Credited | src/main/java/Profits.java:182-186 | after the loop every listed address maps to exactly the share; every unlisted address keeps its entry, or its absence |
| Payout.PaidRoundTotal | src/main/java/Profits.java:178-190 | the transfers of a `Profits` round add up to share times list length |
| Payout.TransferRoundTotal | src/main/java/Stake.java:223-227 | the transfers of a `Stake` round add up to share times list length |
| Payout.RoundRemainder | src/main/java/Profits.java:172-192 | the pool added to `allTimeRewards` exceeds what was transferred by less than the list length |
| Payout.ThreeShareholders | src/main/java/Profits.java:172-193 | three entries: a pool of 3,000,000 pays 1,000,000 each, transfer before event; a pool of 2,000,000 gives 666,666 each and does not pay |
| Shareholders.RemoveFirst | src/main/java/Profits.java:205 | `ArrayList.remove(Object)`: a missing value leaves the list as it is |
| Shareholders.RemoveFirstCount | src/main/java/Profits.java:205 | when the value is listed the list becomes one shorter; either way its multiset loses exactly one copy of the value and keeps every other count |
| Shareholders.RemoveFirstAt | src/main/java/Profits.java:205 | only the first occurrence is deleted; the entries before and after it keep their order |
| Shareholders.RemoveFirstAppended | src/main/java/Profits.java:205 | removing a value appended behind a list that lacks it gives the list back |
| Shareholders.Initialize | src/main/java/Profits.java:56-61 | the list grows by the given addresses in order; each given address is flagged true; other flags are kept; consistency is kept |
| Shareholders.Add | src/main/java/Profits.java:208-215 | fails "Invalid Shareholder" for an address with no flag and "Already Shareholder" for an active one; succeeds exactly when the flag exists and is false, and then sets the flag true and appends; keeps consistency |
| Shareholders.Remove | src/main/java/Profits.java:199-206 | succeeds exactly when the flag exists and is true; then the flag becomes false and one copy of the address leaves the list |
| Shareholders.RemoveConsistent | src/main/java/Profits.java:199-206 | removal keeps the registry consistent: every active address is listed and every listed address has a flag |
| Shareholders.AddThenRemove | src/main/java/Profits.java:199-215 | for an inactive, unlisted address, add then remove succeed and restore the flags and the list exactly |
| Accrual.Lookup | src/main/java/Stake.java:131-135 | the null-as-zero read of a `Map<Address, BigInteger>` (also `Stake.java:146-150`, `161-165`, `342-348`): the stored value when the key is present, zero otherwise |
| Accrual.RewardPerToken | src/main/java/Stake.java:320-331 | with zero total supply the accumulator is returned unchanged; with no elapsed time it is unchanged; with positive supply, elapsed time and a non-negative rate it never falls below the stored value |
| Accrual.Earned | src/main/java/Stake.java:340-352 | an account with zero balance, or whose checkpoint equals the current accumulator, earns exactly its banked reward |
| Accrual.Refresh | src/main/java/Stake.java:306-313 | the accumulator becomes `rewardPerToken()` and the last-update time becomes `now`; for a null account the per-account maps are untouched; otherwise the account's banked reward becomes what it had earned and its checkpoint the new accumulator |
| Accrual.RefreshSettles | src/main/java/Stake.java:306-313 | right after `updateReward(a)`, the checkpoint is the accumulator and `_earned(a)` at the same time equals the banked reward |
| Accrual.RefreshPreservesEarned | src/main/java/Stake.java:306-313 | `updateReward` (of any account or none) leaves what every account has earned at that time unchanged |
| Accrual.RefreshIdempotent | src/main/java/Stake.java:306-313 | two `updateReward` calls at the same time give the state of one |
| Accrual.StakeChangeAfterRefresh | src/main/java/Stake.java:306-313 | after `updateReward(a)`, changing a's balance and the total supply leaves every account's earned amount at that time as before |
| Accrual.RewardPerTokenMonotone | src/main/java/Stake.java:320-331 | the accumulator does not decrease as time moves forward, for non-negative supply and rate (with zero supply it does not move) |
| Accrual.EarnedMonotone | src/main/java/Stake.java:340-352 | an account with non-negative balance earns no less later than earlier |
| Accrual.EarnedAcrossRefresh | src/main/java/Stake.java:306-352 | what an account earned at t1 is at most what it earns at any later t2 after an update at t1 |
| ProfitsContract.Profits.constructor | src/main/java/Profits.java:31-49 | the deployer is admin; unlocked; zero total; empty tables and list |
| ProfitsContract.Profits.Initialize | src/main/java/Profits.java:56-61 | the registry becomes `Shareholders.Initialize` of the old one; the invariant is kept |
| ProfitsContract.Profits.GetLockStatus | src/main/java/Profits.java:85-87 | returns the lock flag |
| ProfitsContract.Profits.AllTimeEarned | src/main/java/Profits.java:97-99 | returns the global all-time total whatever the account |
| ProfitsContract.Profits.GetShareholdersProfits | src/main/java/Profits.java:114-119 | the account's entry, or zero without one; never above the all-time total |
| ProfitsContract.Profits.NonReentrant | src/main/java/Profits.java:130-133 | fails "Already Entered" when locked; either way the lock is held afterwards |
| ProfitsContract.Profits.CloseReentrant | src/main/java/Profits.java:138-141 | fails "Not Entered" when unlocked; either way the lock is free afterwards |
| ProfitsContract.Profits.OnlyRewardDistribution | src/main/java/Profits.java:146-148 | passes exactly when the caller is the admin |
| ProfitsContract.Profits.SetRewardDistribution | src/main/java/Profits.java:229-232 | succeeds exactly for the admin and then installs the new admin; otherwise nothing changes |
| ProfitsContract.Profits.ProfitDistribution | src/main/java/Profits.java:167-197 | fails when locked or the list is empty, with all state unchanged (lock included); otherwise finds and leaves the lock free, and on a paying round logs `PaidRound`, sets the table to `Credited` and adds the whole pool to the total, while a non-paying round changes nothing; the registry is never touched |
| ProfitsContract.Profits.PayEveryEntry | src/main/java/Profits.java:177-189 | for each list entry, in list order, logs a transfer of the share followed by a `RewardPaid` event (`PaidRound`), and sets every listed entry's all-time figure to the share (`Credited`), leaving other accounts' figures alone |
| ProfitsContract.Profits.RemoveShareholder | src/main/java/Profits.java:199-206 | the registry becomes `Shareholders.Remove` of the old one, or, on failure, stays as it was with the same error |
| ProfitsContract.Profits.AddShareholder | src/main/java/Profits.java:208-215 | the registry becomes `Shareholders.Add` of the old one, or, on failure, stays as it was with the same error |
| ProfitsContract.CreditOverwrites | src/main/java/Profits.java:182-186 | after two paying rounds a listed entry holds the second share, not the sum |
| StakeContract.Stake.constructor | src/main/java/Stake.java:51-55 | the deployer is admin, the treasury is given, unlocked, accrual fields zero |
| StakeContract.Stake.Initialize | src/main/java/Stake.java:57-61 | the list grows by the given addresses in order; the flag table is untouched |
| StakeContract.Stake.GetLockStatus | src/main/java/Stake.java:95-97 | returns the lock flag |
| StakeContract.Stake.AllTimeEarned | src/main/java/Stake.java:117-121 | the recorded all-time figure plus `_earned` when the figure exists, `_earned` alone otherwise |
| StakeContract.Stake.GetUserRewardPerTokenPaid | src/main/java/Stake.java:130-136 | the account's checkpoint, zero without one |
| StakeContract.Stake.GetUserAlreadyStoredRewards | src/main/java/Stake.java:145-151 | the banked reward, zero without one; for an account without stake it is what `_earned` reports at any time |
| StakeContract.Stake.BalanceOf | src/main/java/Stake.java:160-166 | the account's stake, zero without one |
| StakeContract.Stake.NonReentrant | src/main/java/Stake.java:177-180 | fails "Already Entered" when locked; either way the lock is held afterwards |
| StakeContract.Stake.CloseReentrant | src/main/java/Stake.java:185-188 | fails "Not Entered" when unlocked; either way the lock is free afterwards |
| StakeContract.Stake.OnlyRewardDistribution | src/main/java/Stake.java:193-195 | passes exactly when the caller is the admin |
| StakeContract.Stake.SetTreasury | src/main/java/Stake.java:248-252 | fails for a non-admin caller first, then for a null address; otherwise replaces the treasury |
| StakeContract.Stake.SetRewardDistribution | src/main/java/Stake.java:260-263 | succeeds exactly for the admin and then installs the new admin |
| StakeContract.Stake.UpdateReward | src/main/java/Stake.java:306-313 | the accrual fields become `Accrual.Refresh` of the old ones; nothing else changes |
| StakeContract.Stake.ProfitDistribution | src/main/java/Stake.java:214-233 | fails when locked or the list is empty, lock and log unchanged; otherwise finds and leaves the lock free, logs one transfer of the share per entry when the round pays (the flags are not consulted) and then one `Staked(caller, amount)` event either way |

## Left out

- Native value movement: the balance is an input and transfers are log entries. A transfer is taken to succeed. It cannot fail for lack of funds, because the shares add up to at most the pool (`Payout.RoundRemainder`). A transfer the recipient refuses would revert the whole call, and the model has no such path. `recoverNuls` in both contracts only moves the whole balance to the admin, and is not part of this model.
- Token-contract calls (`recoverNRC20`, `safeTransfer`, `safeTransferFrom`, `getUserAllowance`) are foreign calls returning strings, and are not part of this model.
- Event classes (`RewardPaid`, `Staked`, `RewardAdded`) appear only as log entries. Their getters, setters, `equals`, `hashCode` and `toString` are boilerplate.
- Building an `Address` from a string is not modelled; addresses are opaque values compared for equality.
- Reentrant calls made by a transfer's recipient, and the host's per-block serialisation, are not modelled. The lock's behaviour on a second entry is stated by `NonReentrant`.
- `lastTimeRewardApplicable()` and the reward-period machinery are not in the source; the time is the parameter `now`.
- Plain field getters (`getRewardDistribution`, `getTreasuryAddress`, `totalSupply`) and the empty `_payable` are not modelled. `Profits._balanceOf()` is not modelled either, because it is the host's balance query.
- `Stake.constructor`: with Java's actual defaults the five undeclared accrual fields would be `null`, so `rewardPerToken()` and `_earned` would throw a `NullPointerException` on first use; the model starts them at zero and empty instead and has no such failure path.
- `lastUpdateTime` is a Java `long`; the model uses an unbounded integer, which only matters for times outside the 64-bit range.
- Nothing in `Stake.java` changes `_totalSupply`, `rewardRate`, `_balances` or `allTimeRewards`. The model declares them and proves what holds for any of their values, but has no deposit, withdraw or claim operation.
