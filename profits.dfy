/** The `Profits` contract: a shareholder registry and an equal-split
    distributor of the contract's whole balance, guarded against reentrancy.
    The balance is the parameter `pool`, the caller the parameter `caller`;
    transfers and events are appended, in order, to the ghost log `effects`.
    A call that fails returns `Reverted` and leaves every field as it was,
    as the host's transaction revert does. */
module ProfitsContract {
  import opened Chain
  import opened Payout
  import Shareholders

  class Profits {
    var rewardDistribution: Option<Address>
    var locked: bool
    var allTimeRewards: int
    var allTimeRewardsPerUser: map<Address, int>
    var shareholder: map<Address, bool>
    var shareholdersList: seq<Address>
    /** Transfers made and events emitted so far, in order. */
    ghost var effects: seq<Effect>

    /** The flag table and the list, as one registry value. */
    function Registry(): Shareholders.Registry
      reads this
    {
      Shareholders.Registry(shareholder, shareholdersList)
    }

    /** The registry is consistent, the all-time total is not negative, and
        no account's all-time figure exceeds the all-time total. */
    ghost predicate Valid()
      reads this
    {
      && Shareholders.Consistent(Registry())
      && allTimeRewards >= 0
      && forall a :: a in allTimeRewardsPerUser ==> 0 <= allTimeRewardsPerUser[a] <= allTimeRewards
    }

    /** The deployer becomes the admin. */
    constructor (sender: Address)
      ensures Valid()
      ensures rewardDistribution == Some(sender) && !locked
      ensures allTimeRewards == 0 && allTimeRewardsPerUser == map[]
      ensures shareholder == map[] && shareholdersList == [] && effects == []
    {
      rewardDistribution := Some(sender);
      locked := false;
      allTimeRewards := 0;
      allTimeRewardsPerUser := map[];
      shareholder := map[];
      shareholdersList := [];
      effects := [];
    }

    /** `initialize`: flags every given address active and appends it to the
        list, in order. There is no admin check and no once-only guard. */
    method Initialize(shareholders: seq<Address>)
      requires Valid()
      modifies this`shareholder, this`shareholdersList
      ensures Valid()
      ensures Registry() == Shareholders.Initialize(old(Registry()), shareholders)
    {
      var i := 0;
      while i < |shareholders|
        invariant 0 <= i <= |shareholders|
        invariant shareholder == old(shareholder) + map a | a in shareholders[..i] :: true
        invariant shareholdersList == old(shareholdersList) + shareholders[..i]
      {
        assert shareholders[..i + 1] == shareholders[..i] + [shareholders[i]];
        shareholder := shareholder[shareholders[i] := true];
        shareholdersList := shareholdersList + [shareholders[i]];
        i := i + 1;
      }
      assert shareholders[..i] == shareholders;
    }

    /** `getLockStatus`. */
    function GetLockStatus(): (r: bool)
      reads this
      ensures r <==> locked
    {
      locked
    }

    /** `allTimeEarned(account)`: the argument is ignored; every account gets
        the contract's all-time total. */
    function AllTimeEarned(account: Address): (r: int)
      reads this
      ensures r == allTimeRewards
    {
      allTimeRewards
    }

    /** `getShareholdersProfits(account)`: the account's all-time figure, zero
        when it has none. */
    function GetShareholdersProfits(account: Address): (r: int)
      reads this
      ensures account in allTimeRewardsPerUser ==> r == allTimeRewardsPerUser[account]
      ensures account !in allTimeRewardsPerUser ==> r == 0
      ensures Valid() ==> 0 <= r <= AllTimeEarned(account)
    {
      if account !in allTimeRewardsPerUser then 0 else allTimeRewardsPerUser[account]
    }

    /** `nonReentrant`: takes the lock, failing when it is already held. */
    method NonReentrant() returns (st: Status)
      modifies this`locked
      ensures st == if old(locked) then Reverted(AlreadyEntered) else Done
      ensures locked
    {
      if locked {
        return Reverted(AlreadyEntered);
      }
      locked := true;
      st := Done;
    }

    /** `closeReentrant`: releases the lock, failing when it is not held. */
    method CloseReentrant() returns (st: Status)
      modifies this`locked
      ensures st == if old(locked) then Done else Reverted(NotEntered)
      ensures !locked
    {
      if !locked {
        return Reverted(NotEntered);
      }
      locked := false;
      st := Done;
    }

    /** `onlyRewardDistribution`: the caller must be the admin. */
    function OnlyRewardDistribution(caller: Address): (st: Status)
      reads this
      ensures st.Done? <==> rewardDistribution == Some(caller)
      ensures st.Reverted? ==> st.error == NotRewardDistribution
    {
      if rewardDistribution == Some(caller) then Done else Reverted(NotRewardDistribution)
    }

    /** `setRewardDistribution`: the admin hands the role to another address
        (or to `null`, after which no caller passes the check). */
    method SetRewardDistribution(caller: Address, next: Option<Address>) returns (st: Status)
      modifies this`rewardDistribution
      ensures st == old(OnlyRewardDistribution(caller))
      ensures rewardDistribution == if st.Done? then next else old(rewardDistribution)
    {
      st := OnlyRewardDistribution(caller);
      if st.Done? {
        rewardDistribution := next;
      }
    }

    /** `profitDistribution`: splits the pool equally over the list, paying
        each entry once, in list order, when the share reaches the minimum.
        A completed call finds the lock free and leaves it free. An empty
        list makes the division throw, and the whole call reverts, the lock
        included. The `amount` argument is not used. */
    method ProfitDistribution(pool: nat, amount: int) returns (st: Status)
      requires Valid()
      modifies this
      ensures Valid()
      ensures st == if old(locked) then Reverted(AlreadyEntered)
                    else if old(shareholdersList) == [] then Reverted(DivisionByZero)
                    else Done
      ensures st.Reverted? ==> unchanged(this)
      ensures st.Done? ==> !old(locked) && !locked
      ensures Registry() == old(Registry()) && rewardDistribution == old(rewardDistribution)
      ensures st.Done? && Pays(pool, |shareholdersList|) ==>
        var share := Share(pool, |shareholdersList|);
        && effects == old(effects) + PaidRound(shareholdersList, share)
        && allTimeRewardsPerUser == Credited(old(allTimeRewardsPerUser), shareholdersList, share)
        && allTimeRewards == old(allTimeRewards) + pool
      ensures st.Done? && !Pays(pool, |shareholdersList|) ==>
        && effects == old(effects)
        && allTimeRewardsPerUser == old(allTimeRewardsPerUser)
        && allTimeRewards == old(allTimeRewards)
    {
      st := NonReentrant();
      if st.Reverted? {
        return;
      }
      if shareholdersList == [] {
        // BigInteger.divide throws; the host reverts the lock taken above.
        locked := false;
        return Reverted(DivisionByZero);
      }
      var n := |shareholdersList|;
      var share := Share(pool, n);
      if share >= MIN_NULS_AMOUNT {
        PayEveryEntry(share);
        allTimeRewards := allTimeRewards + pool;
      }
      st := CloseReentrant();
    }

    /** The loop of `profitDistribution`: for each list entry, in order, a
        transfer of the share, the entry's all-time figure set to the share,
        and a `RewardPaid` event. */
    method PayEveryEntry(share: nat)
      modifies this`effects, this`allTimeRewardsPerUser
      ensures effects == old(effects) + PaidRound(shareholdersList, share)
      ensures allTimeRewardsPerUser == Credited(old(allTimeRewardsPerUser), shareholdersList, share)
    {
      var n := |shareholdersList|;
      var i := 0;
      while i < n
        invariant 0 <= i <= n
        invariant effects == old(effects) + PaidRound(shareholdersList[..i], share)
        invariant allTimeRewardsPerUser == Credited(old(allTimeRewardsPerUser), shareholdersList[..i], share)
      {
        var who := shareholdersList[i];
        assert shareholdersList[..i + 1][..i] == shareholdersList[..i];
        effects := effects + [Pay(who, share)];
        // The source looks the entry up by the loop index, which is never
        // a key of this table, so it always stores the bare share.
        allTimeRewardsPerUser := allTimeRewardsPerUser[who := share];
        effects := effects + [Emit(RewardPaid(who, share))];
        i := i + 1;
      }
      assert shareholdersList[..n] == shareholdersList;
    }

    /** `removeShareholder`: an active shareholder is flagged inactive and its
        first occurrence leaves the list. There is no admin check. */
    method RemoveShareholder(account: Address) returns (st: Status)
      requires Valid()
      modifies this`shareholder, this`shareholdersList
      ensures Valid()
      ensures match Shareholders.Remove(old(Registry()), account)
        case Ok(r) => st == Done && Registry() == r
        case Err(e) => st == Reverted(e) && Registry() == old(Registry())
    {
      if account !in shareholder || !shareholder[account] {
        return Reverted(NotShareholder);
      }
      Shareholders.RemoveConsistent(Registry(), account);
      shareholder := shareholder[account := false];
      shareholdersList := Shareholders.RemoveFirst(shareholdersList, account);
      st := Done;
    }

    /** `addShareholder`: an address that has a flag and is inactive is
        flagged active and appended to the list; an address never seen fails
        as invalid. There is no admin check. */
    method AddShareholder(account: Address) returns (st: Status)
      requires Valid()
      modifies this`shareholder, this`shareholdersList
      ensures Valid()
      ensures match Shareholders.Add(old(Registry()), account)
        case Ok(r) => st == Done && Registry() == r
        case Err(e) => st == Reverted(e) && Registry() == old(Registry())
    {
      if account !in shareholder {
        return Reverted(InvalidShareholder);
      }
      if shareholder[account] {
        return Reverted(AlreadyShareholder);
      }
      shareholder := shareholder[account := true];
      shareholdersList := shareholdersList + [account];
      st := Done;
    }
  }

  /** Two shareholders paid in two rounds: each entry holds the second
      round's share, not the sum of both, because the lookup under the loop
      index never finds the first round's figure. */
  lemma CreditOverwrites(m: map<Address, int>, s: seq<Address>, first: int, second: int, a: Address)
    requires a in s
    ensures Credited(Credited(m, s, first), s, second)[a] == second
  {
  }
}
