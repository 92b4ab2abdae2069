/** The `Stake` contract: the same equal-split distributor without counters,
    plus the fields and update step of a reward-per-token accrual engine.
    The balance is the parameter `pool`, the caller the parameter `caller`,
    the time `lastTimeRewardApplicable()` returns the parameter `now`;
    transfers and events are appended, in order, to the ghost log `effects`.
    A call that fails returns `Reverted` and leaves every field as it was. */
module StakeContract {
  import opened Chain
  import opened Payout
  import Accrual

  class Stake {
    var lastUpdateTime: int
    var treasury: Option<Address>
    var rewardDistribution: Option<Address>
    var locked: bool
    var totalSupply: int
    var allTimeRewards: map<Address, int>
    var shareholder: map<Address, bool>
    var shareholdersList: seq<Address>
    // Read and written by the source without a declaration.
    var rewardPerTokenStored: int
    var rewardRate: int
    var rewards: map<Address, int>
    var userRewardPerTokenPaid: map<Address, int>
    var balances: map<Address, int>
    /** Transfers made and events emitted so far, in order. */
    ghost var effects: seq<Effect>

    /** The accrual fields, as one ledger value. */
    function Ledger(): Accrual.Ledger
      reads this
    {
      Accrual.Ledger(totalSupply, rewardRate, rewardPerTokenStored, lastUpdateTime,
                     balances, userRewardPerTokenPaid, rewards)
    }

    /** The deployer becomes the admin; the treasury is given. The fields the
        source never declares start like its declared fields of the same
        type: numbers at zero, maps empty. */
    constructor (sender: Address, treasury: Option<Address>)
      ensures this.treasury == treasury && rewardDistribution == Some(sender) && !locked
      ensures Ledger() == Accrual.Ledger(0, 0, 0, 0, map[], map[], map[])
      ensures allTimeRewards == map[] && shareholder == map[] && shareholdersList == [] && effects == []
    {
      lastUpdateTime := 0;
      this.treasury := treasury;
      rewardDistribution := Some(sender);
      locked := false;
      totalSupply := 0;
      allTimeRewards := map[];
      shareholder := map[];
      shareholdersList := [];
      rewardPerTokenStored := 0;
      rewardRate := 0;
      rewards := map[];
      userRewardPerTokenPaid := map[];
      balances := map[];
      effects := [];
    }

    /** `initialize`: appends the given addresses to the list, in order. The
        flag table is not touched, and nothing stops a second call. */
    method Initialize(shareholders: seq<Address>)
      modifies this`shareholdersList
      ensures shareholdersList == old(shareholdersList) + shareholders
    {
      var i := 0;
      while i < |shareholders|
        invariant 0 <= i <= |shareholders|
        invariant shareholdersList == old(shareholdersList) + shareholders[..i]
      {
        assert shareholders[..i + 1] == shareholders[..i] + [shareholders[i]];
        shareholdersList := shareholdersList + [shareholders[i]];
        i := i + 1;
      }
      assert shareholders[..i] == shareholders;
    }

    /** `getLockStatus`. */
    function GetLockStatus(): (r: bool)
      reads this
      ensures r <==> locked
    {
      locked
    }

    /** `allTimeEarned(account)`: the account's recorded all-time figure, when
        it has one, plus what it has earned and not yet claimed. */
    function AllTimeEarned(account: Address, now: int): (r: int)
      reads this
      ensures account in allTimeRewards ==> r == allTimeRewards[account] + Accrual.Earned(Ledger(), account, now)
      ensures account !in allTimeRewards ==> r == Accrual.Earned(Ledger(), account, now)
    {
      if account in allTimeRewards then allTimeRewards[account] + Accrual.Earned(Ledger(), account, now)
      else Accrual.Earned(Ledger(), account, now)
    }

    /** `getUserRewardPerTokenPaid(account)`: the account's checkpoint, zero
        when it has none. */
    function GetUserRewardPerTokenPaid(account: Address): (r: int)
      reads this
      ensures account in userRewardPerTokenPaid ==> r == userRewardPerTokenPaid[account]
      ensures account !in userRewardPerTokenPaid ==> r == 0
    {
      Accrual.Lookup(userRewardPerTokenPaid, account)
    }

    /** `getUserAlreadyStoredRewards(account)`: the account's banked reward,
        zero when it has none; for an account without stake it is all that
        `_earned` reports. */
    function GetUserAlreadyStoredRewards(account: Address): (r: int)
      reads this
      ensures account in rewards ==> r == rewards[account]
      ensures account !in rewards ==> r == 0
      ensures forall now :: BalanceOf(account) == 0 ==> Accrual.Earned(Ledger(), account, now) == r
    {
      Accrual.Lookup(rewards, account)
    }

    /** `_balanceOf(account)`: the account's stake, zero when it has none. */
    function BalanceOf(account: Address): (r: int)
      reads this
      ensures account in balances ==> r == balances[account]
      ensures account !in balances ==> r == 0
    {
      Accrual.Lookup(balances, account)
    }

    /** `nonReentrant`: takes the lock, failing when it is already held. */
    method NonReentrant() returns (st: Status)
      modifies this`locked
      ensures st == if old(locked) then Reverted(AlreadyEntered) else Done
      ensures locked
    {
      if locked {
        return Reverted(AlreadyEntered);
      }
      locked := true;
      st := Done;
    }

    /** `closeReentrant`: releases the lock, failing when it is not held. */
    method CloseReentrant() returns (st: Status)
      modifies this`locked
      ensures st == if old(locked) then Done else Reverted(NotEntered)
      ensures !locked
    {
      if !locked {
        return Reverted(NotEntered);
      }
      locked := false;
      st := Done;
    }

    /** `onlyRewardDistribution`: the caller must be the admin. */
    function OnlyRewardDistribution(caller: Address): (st: Status)
      reads this
      ensures st.Done? <==> rewardDistribution == Some(caller)
      ensures st.Reverted? ==> st.error == NotRewardDistribution
    {
      if rewardDistribution == Some(caller) then Done else Reverted(NotRewardDistribution)
    }

    /** `setTreasury`: the admin replaces the treasury with a non-null
        address. The admin check comes first. */
    method SetTreasury(caller: Address, addr: Option<Address>) returns (st: Status)
      modifies this`treasury
      ensures st == if old(rewardDistribution) != Some(caller) then Reverted(NotRewardDistribution)
                    else if addr.None? then Reverted(InvalidTreasury)
                    else Done
      ensures treasury == if st.Done? then addr else old(treasury)
    {
      st := OnlyRewardDistribution(caller);
      if st.Reverted? {
        return;
      }
      if addr.None? {
        return Reverted(InvalidTreasury);
      }
      treasury := addr;
    }

    /** `setRewardDistribution`: the admin hands the role to another address
        (or to `null`, after which no caller passes the check). */
    method SetRewardDistribution(caller: Address, next: Option<Address>) returns (st: Status)
      modifies this`rewardDistribution
      ensures st == old(OnlyRewardDistribution(caller))
      ensures rewardDistribution == if st.Done? then next else old(rewardDistribution)
    {
      st := OnlyRewardDistribution(caller);
      if st.Done? {
        rewardDistribution := next;
      }
    }

    /** `updateReward(account)`, with `None` for `null`: brings the
        accumulator forward to `now` and, for an account, banks what it has
        earned and checkpoints it. Only the accrual fields change. */
    method UpdateReward(account: Option<Address>, now: int)
      modifies this`rewardPerTokenStored, this`lastUpdateTime, this`rewards, this`userRewardPerTokenPaid
      ensures Ledger() == Accrual.Refresh(old(Ledger()), account, now)
    {
      rewardPerTokenStored := Accrual.RewardPerToken(Ledger(), now);
      lastUpdateTime := now;
      if account.Some? {
        rewards := rewards[account.value := Accrual.Earned(Ledger(), account.value, now)];
        userRewardPerTokenPaid := userRewardPerTokenPaid[account.value := rewardPerTokenStored];
      }
    }

    /** `profitDistribution`: splits the pool equally over the list and pays
        each entry once, in list order, when the share reaches the minimum;
        the flag table is not consulted. One `Staked(caller, amount)` event
        follows whether or not anything was paid. A completed call finds the
        lock free and leaves it free; an empty list makes the division throw
        and the whole call reverts, the lock included. */
    method ProfitDistribution(caller: Address, pool: nat, amount: int) returns (st: Status)
      modifies this`locked, this`effects
      ensures st == if old(locked) then Reverted(AlreadyEntered)
                    else if shareholdersList == [] then Reverted(DivisionByZero)
                    else Done
      ensures st.Reverted? ==> locked == old(locked) && effects == old(effects)
      ensures st.Done? ==> !old(locked) && !locked
      ensures st.Done? ==>
        var share := Share(pool, |shareholdersList|);
        effects == old(effects)
                   + (if Pays(pool, |shareholdersList|) then TransferRound(shareholdersList, share) else [])
                   + [Emit(Staked(caller, amount))]
    {
      st := NonReentrant();
      if st.Reverted? {
        return;
      }
      if shareholdersList == [] {
        // BigInteger.divide throws; the host reverts the lock taken above.
        locked := false;
        return Reverted(DivisionByZero);
      }
      var n := |shareholdersList|;
      var share := Share(pool, n);
      if share >= MIN_NULS_AMOUNT {
        var i := 0;
        while i < n
          invariant 0 <= i <= n
          invariant locked
          invariant effects == old(effects) + TransferRound(shareholdersList[..i], share)
        {
          assert shareholdersList[..i + 1][..i] == shareholdersList[..i];
          effects := effects + [Pay(shareholdersList[i], share)];
          i := i + 1;
        }
        assert shareholdersList[..n] == shareholdersList;
      }
      effects := effects + [Emit(Staked(caller, amount))];
      st := CloseReentrant();
    }
  }
}
