/** The equal split that both contracts' `profitDistribution` perform: the
    whole balance is floor-divided by the length of the shareholder list,
    and every entry of the list is paid that share, in list order, when it
    reaches the minimum transferable amount. */
module Payout {
  import opened Chain

  /** One entry's share of the pool. The balance is never negative, so the
      truncating `BigInteger.divide` is floor division here: the share times
      the number of entries fits in the pool, and what is left over is less
      than one share per entry. */
  function Share(pool: nat, n: nat): (share: nat)
    requires n > 0
    ensures share * n <= pool < share * n + n
    ensures share <= pool
  {
    var q, r := pool / n, pool % n;
    assert pool == q * n + r && 0 <= r < n;
    assert q <= q * n by {
      assert q * n == q + q * (n - 1);
    }
    q
  }

  /** Whether a round pays out at all (`>=` against `MIN_NULS_AMOUNT`); a
      paying round needs at least that amount in the pool. */
  predicate Pays(pool: nat, n: nat)
    requires n > 0
    ensures Pays(pool, n) ==> pool >= MIN_NULS_AMOUNT
  {
    Share(pool, n) >= MIN_NULS_AMOUNT
  }

  /** A round pays exactly when the pool covers the minimum amount for every
      entry of the list. */
  lemma PaysIff(pool: nat, n: nat)
    requires n > 0
    ensures Pays(pool, n) <==> pool >= MIN_NULS_AMOUNT * n
  {
    var share := Share(pool, n);
    if share >= MIN_NULS_AMOUNT {
      MultiplyMonotone(MIN_NULS_AMOUNT, share, n);
    } else {
      MultiplyMonotone(share + 1, MIN_NULS_AMOUNT, n);
      assert pool < (share + 1) * n;
    }
  }

  /** The effects of a paying round in `Profits`: for each list entry, in
      order, a transfer of the share followed by a `RewardPaid` event. */
  function PaidRound(s: seq<Address>, share: int): (r: seq<Effect>)
    ensures |r| == 2 * |s|
    ensures forall i :: 0 <= i < |s| ==>
      r[2 * i] == Pay(s[i], share) && r[2 * i + 1] == Emit(RewardPaid(s[i], share))
  {
    if s == [] then []
    else
      var p := s[..|s| - 1];
      var r := PaidRound(p, share) + [Pay(s[|s| - 1], share), Emit(RewardPaid(s[|s| - 1], share))];
      assert forall i :: 0 <= i < |p| ==> p[i] == s[i];
      r
  }

  /** The effects of a paying round in `Stake`: one transfer of the share per
      list entry, in order, and no events. */
  function TransferRound(s: seq<Address>, share: int): (r: seq<Effect>)
    ensures |r| == |s|
    ensures forall i :: 0 <= i < |s| ==> r[i] == Pay(s[i], share)
  {
    if s == [] then []
    else
      var p := s[..|s| - 1];
      assert forall i :: 0 <= i < |p| ==> p[i] == s[i];
      TransferRound(p, share) + [Pay(s[|s| - 1], share)]
  }

  /** The all-time-per-user table after a paying round of `Profits`. The
      source looks the table up with the loop index instead of the address,
      a lookup that never finds an entry, so every listed address is set to
      the share (not increased by it) and every other entry is kept. */
  function Credited(m: map<Address, int>, s: seq<Address>, share: int): (r: map<Address, int>)
    ensures forall a :: a in s ==> a in r && r[a] == share
    ensures forall a :: a !in s ==> (a in r <==> a in m) && (a in m ==> r[a] == m[a])
  {
    if s == [] then m
    else
      var p := s[..|s| - 1];
      assert forall a :: a in s && a != s[|s| - 1] ==> a in p;
      Credited(m, p, share)[s[|s| - 1] := share]
  }

  /** The total amount transferred by a sequence of effects. */
  function Paid(e: seq<Effect>): int {
    if e == [] then 0
    else Paid(e[..|e| - 1]) + (match e[|e| - 1] case Pay(_, amount) => amount case Emit(_) => 0)
  }

  lemma {:induction false} PaidAppend(e1: seq<Effect>, e2: seq<Effect>)
    ensures Paid(e1 + e2) == Paid(e1) + Paid(e2)
  {
    if e2 == [] {
      assert e1 + e2 == e1;
    } else {
      var p := e2[..|e2| - 1];
      assert (e1 + e2)[..|e1 + e2| - 1] == e1 + p;
      PaidAppend(e1, p);
    }
  }

  /** A paying round of `Profits` transfers the share once per entry. */
  lemma {:induction false} PaidRoundTotal(s: seq<Address>, share: int)
    ensures Paid(PaidRound(s, share)) == share * |s|
  {
    if s != [] {
      var p := s[..|s| - 1];
      var tail := [Pay(s[|s| - 1], share), Emit(RewardPaid(s[|s| - 1], share))];
      PaidRoundTotal(p, share);
      PaidAppend(PaidRound(p, share), tail);
      var pay := [Pay(s[|s| - 1], share)];
      assert pay[..0] == [];
      assert Paid(pay) == share;
      assert tail[..1] == pay;
      assert Paid(tail) == share;
      assert share * |s| == share * |p| + share;
    }
  }

  /** A paying round of `Stake` transfers the share once per entry. */
  lemma {:induction false} TransferRoundTotal(s: seq<Address>, share: int)
    ensures Paid(TransferRound(s, share)) == share * |s|
  {
    if s != [] {
      var p := s[..|s| - 1];
      var pay := [Pay(s[|s| - 1], share)];
      TransferRoundTotal(p, share);
      PaidAppend(TransferRound(p, share), pay);
      assert pay[..0] == [];
      assert Paid(pay) == share;
      assert share * |s| == share * |p| + share;
    }
  }

  /** In a `Profits` round the all-time total grows by the whole pool, while
      the transfers add up to less: the difference, kept in the contract, is
      below one base unit per list entry. */
  lemma RoundRemainder(s: seq<Address>, pool: nat)
    requires |s| > 0
    ensures 0 <= pool - Paid(PaidRound(s, Share(pool, |s|))) < |s|
  {
    PaidRoundTotal(s, Share(pool, |s|));
  }

  /** Three shareholders: a pool of 3,000,000 pays each of them 1,000,000,
      transfer before event; a pool of 2,000,000 gives shares of 666,666,
      below the minimum, so nothing is paid. */
  lemma ThreeShareholders(a: Address, b: Address, c: Address)
    ensures Share(3_000_000, 3) == 1_000_000 && Pays(3_000_000, 3)
    ensures PaidRound([a, b, c], 1_000_000) ==
      [ Pay(a, 1_000_000), Emit(RewardPaid(a, 1_000_000)),
        Pay(b, 1_000_000), Emit(RewardPaid(b, 1_000_000)),
        Pay(c, 1_000_000), Emit(RewardPaid(c, 1_000_000)) ]
    ensures Share(2_000_000, 3) == 666_666 && !Pays(2_000_000, 3)
  {
    var r := PaidRound([a, b, c], 1_000_000);
    assert |r| == 6;
    assert [a, b, c][0] == a && [a, b, c][1] == b && [a, b, c][2] == c;
  }
}
