/** The reward-per-token accrual engine of `Stake`: a global accumulator of
    reward per staked unit, scaled by 10^8, and per-account checkpoints, so
    that an account's reward is computed without visiting other accounts.
    The time the source reads from `lastTimeRewardApplicable()` is the
    parameter `now`. */
module Accrual {
  import opened Chain

  /** The fixed-point scale, `(long) 1e8`. */
  const SCALE: int := 100_000_000

  /** The fields of `Stake` the engine reads and writes. The three maps are
      `_balances`, `userRewardPerTokenPaid` and `rewards`. */
  datatype Ledger = Ledger(
    totalSupply: int,
    rewardRate: int,
    rewardPerTokenStored: int,
    lastUpdateTime: int,
    balances: map<Address, int>,
    rewardPerTokenPaid: map<Address, int>,
    rewards: map<Address, int>)

  /** A map lookup in which a missing entry (Java's `null`) reads as zero. */
  function Lookup(m: map<Address, int>, a: Address): (r: int)
    ensures a in m ==> r == m[a]
    ensures a !in m ==> r == 0
  {
    if a in m then m[a] else 0
  }

  /** `rewardPerToken()`: the accumulator brought forward to `now`. With
      nothing staked it stays where it was and nothing is divided; with no
      time elapsed it also stays; and time moving forward at a non-negative
      rate never lowers it. */
  function RewardPerToken(l: Ledger, now: int): (r: int)
    ensures l.totalSupply == 0 ==> r == l.rewardPerTokenStored
    ensures now == l.lastUpdateTime ==> r == l.rewardPerTokenStored
    ensures l.totalSupply > 0 && l.lastUpdateTime <= now && l.rewardRate >= 0 ==> r >= l.rewardPerTokenStored
  {
    if l.totalSupply == 0 then l.rewardPerTokenStored
    else l.rewardPerTokenStored + Divide((now - l.lastUpdateTime) * l.rewardRate * SCALE, l.totalSupply)
  }

  /** `_earned(account)`: the banked reward plus what the account's balance
      accrued since its checkpoint. An account with no balance, or whose
      checkpoint is the current accumulator, earns exactly its banked
      reward. */
  function Earned(l: Ledger, a: Address, now: int): (r: int)
    ensures Lookup(l.balances, a) == 0 ==> r == Lookup(l.rewards, a)
    ensures Lookup(l.rewardPerTokenPaid, a) == RewardPerToken(l, now) ==> r == Lookup(l.rewards, a)
  {
    Divide(Lookup(l.balances, a) * (RewardPerToken(l, now) - Lookup(l.rewardPerTokenPaid, a)), SCALE)
      + Lookup(l.rewards, a)
  }

  /** `updateReward(account)`, with `None` for a `null` account. The
      accumulator is brought forward to `now`; for an account, what it has
      earned so far is banked and its checkpoint set to the accumulator.
      Nothing else changes. */
  function Refresh(l: Ledger, account: Option<Address>, now: int): (r: Ledger)
    ensures r.rewardPerTokenStored == RewardPerToken(l, now) && r.lastUpdateTime == now
    ensures r.totalSupply == l.totalSupply && r.rewardRate == l.rewardRate && r.balances == l.balances
    ensures account.None? ==> r.rewardPerTokenPaid == l.rewardPerTokenPaid && r.rewards == l.rewards
    ensures account.Some? ==>
      && r.rewards == l.rewards[account.value := Earned(l, account.value, now)]
      && r.rewardPerTokenPaid == l.rewardPerTokenPaid[account.value := r.rewardPerTokenStored]
  {
    // The source assigns the accumulator and the time first, then calls
    // `_earned`, which reads both.
    var brought := l.(rewardPerTokenStored := RewardPerToken(l, now), lastUpdateTime := now);
    match account
    case None => brought
    case Some(a) =>
      assert RewardPerToken(brought, now) == RewardPerToken(l, now);
      brought.(
        rewards := brought.rewards[a := Earned(brought, a, now)],
        rewardPerTokenPaid := brought.rewardPerTokenPaid[a := brought.rewardPerTokenStored])
  }

  /** Right after `updateReward(a)`, `_earned(a)` at the same time is exactly
      the banked reward, and the checkpoint is the accumulator. */
  lemma RefreshSettles(l: Ledger, a: Address, now: int)
    ensures var r := Refresh(l, Some(a), now);
      && Lookup(r.rewardPerTokenPaid, a) == r.rewardPerTokenStored
      && Earned(r, a, now) == Lookup(r.rewards, a)
  {
  }

  /** `updateReward` moves reward between the accrued part and the banked
      part without changing any account's total: at the same time, every
      account earns what it earned before. */
  lemma RefreshPreservesEarned(l: Ledger, account: Option<Address>, now: int, b: Address)
    ensures Earned(Refresh(l, account, now), b, now) == Earned(l, b, now)
  {
    var r := Refresh(l, account, now);
    assert RewardPerToken(r, now) == RewardPerToken(l, now);
    if account.Some? && account.value == b {
      assert Lookup(r.rewards, b) == Earned(l, b, now);
    }
  }

  /** Calling `updateReward` twice at the same time gives the state of one
      call. */
  lemma RefreshIdempotent(l: Ledger, account: Option<Address>, now: int)
    ensures Refresh(Refresh(l, account, now), account, now) == Refresh(l, account, now)
  {
    var r := Refresh(l, account, now);
    var r2 := Refresh(r, account, now);
    assert r2.rewardPerTokenStored == r.rewardPerTokenStored;
    if account.Some? {
      var a := account.value;
      RefreshSettles(l, a, now);
      assert r2.rewards == r.rewards[a := Lookup(r.rewards, a)];
      assert r2.rewards == r.rewards;
      assert r2.rewardPerTokenPaid == r.rewardPerTokenPaid;
    }
  }

  /** Reward is attributed to the stake held before a change: after
      `updateReward(a)`, setting a's balance and the total supply to anything
      leaves what every account has earned at that time as it was. */
  lemma StakeChangeAfterRefresh(l: Ledger, a: Address, now: int, balance: int, supply: int, b: Address)
    ensures var r := Refresh(l, Some(a), now);
      var changed := r.(balances := r.balances[a := balance], totalSupply := supply);
      Earned(changed, b, now) == Earned(l, b, now)
  {
    var r := Refresh(l, Some(a), now);
    var changed := r.(balances := r.balances[a := balance], totalSupply := supply);
    assert RewardPerToken(changed, now) == r.rewardPerTokenStored == RewardPerToken(l, now);
    if b == a {
      assert Lookup(changed.rewardPerTokenPaid, a) == RewardPerToken(changed, now);
    } else {
      assert Lookup(changed.balances, b) == Lookup(l.balances, b);
      assert Lookup(changed.rewardPerTokenPaid, b) == Lookup(l.rewardPerTokenPaid, b);
      assert Lookup(changed.rewards, b) == Lookup(l.rewards, b);
    }
  }

  /** With a non-negative total supply and rate, the accumulator does not
      decrease as time moves forward past the last update; with nothing
      staked it does not move at all. */
  lemma RewardPerTokenMonotone(l: Ledger, t1: int, t2: int)
    requires l.totalSupply >= 0 && l.rewardRate >= 0 && l.lastUpdateTime <= t1 <= t2
    ensures RewardPerToken(l, t1) <= RewardPerToken(l, t2)
  {
    if l.totalSupply > 0 {
      var d1, d2 := t1 - l.lastUpdateTime, t2 - l.lastUpdateTime;
      MultiplyMonotone(d1, d2, l.rewardRate);
      MultiplyMonotone(d1 * l.rewardRate, d2 * l.rewardRate, SCALE);
      DivideMonotone(d1 * l.rewardRate * SCALE, d2 * l.rewardRate * SCALE, l.totalSupply);
    }
  }

  /** An account with a non-negative balance earns no less later than
      earlier, between two updates. */
  lemma EarnedMonotone(l: Ledger, a: Address, t1: int, t2: int)
    requires l.totalSupply >= 0 && l.rewardRate >= 0 && l.lastUpdateTime <= t1 <= t2
    requires Lookup(l.balances, a) >= 0
    ensures Earned(l, a, t1) <= Earned(l, a, t2)
  {
    RewardPerTokenMonotone(l, t1, t2);
    var bal, paid := Lookup(l.balances, a), Lookup(l.rewardPerTokenPaid, a);
    var x1, x2 := RewardPerToken(l, t1) - paid, RewardPerToken(l, t2) - paid;
    MultiplyMonotone(x1, x2, bal);
    DivideMonotone(x1 * bal, x2 * bal, SCALE);
    assert Earned(l, a, t1) == Divide(bal * x1, SCALE) + Lookup(l.rewards, a);
    assert Earned(l, a, t2) == Divide(bal * x2, SCALE) + Lookup(l.rewards, a);
  }

  /** Earned reward survives an update and keeps growing afterwards: what an
      account has earned at `t1` is at most what it has earned at any later
      `t2` after an `updateReward` (of any account) at `t1`. */
  lemma EarnedAcrossRefresh(l: Ledger, account: Option<Address>, a: Address, t1: int, t2: int)
    requires l.totalSupply >= 0 && l.rewardRate >= 0 && t1 <= t2
    requires Lookup(l.balances, a) >= 0
    ensures Earned(l, a, t1) <= Earned(Refresh(l, account, t1), a, t2)
  {
    RefreshPreservesEarned(l, account, t1, a);
    EarnedMonotone(Refresh(l, account, t1), a, t1, t2);
  }
}
