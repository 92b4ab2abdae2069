/** Values shared by both contracts: addresses, the failures that abort a call,
    the effects a call has on the outside world, and the integer division of
    `java.math.BigInteger`. */
module Chain {

  /** A NULS address. The contracts build addresses from their textual form;
      the model only compares them. */
  datatype Address = Address(text: string)

  /** A Java reference that may be `null`. */
  datatype Option<T> = None | Some(value: T)

  /** Smallest amount of NULS (in base units) either contract will transfer. */
  const MIN_NULS_AMOUNT: nat := 1_000_000

  /** Why a call aborts: the message of the failing `require`, or the host
      exception. An aborted call leaves every field as it was. */
  datatype Error =
    | AlreadyEntered         // "Already Entered"
    | NotEntered             // "Not Entered"
    | NotRewardDistribution  // "Caller is not reward distribution"
    | NotShareholder         // "Not Shareholder"
    | InvalidShareholder     // "Invalid Shareholder"
    | AlreadyShareholder     // "Already Shareholder"
    | InvalidTreasury        // "Invalid Treasury Address"
    | DivisionByZero         // ArithmeticException thrown by BigInteger.divide

  /** How a state-changing call ends. */
  datatype Status = Done | Reverted(error: Error)

  /** The value a pure operation produces, or the reason it aborts. */
  datatype Result<T> = Ok(value: T) | Err(error: Error)

  datatype Event =
    | RewardPaid(user: Address, amount: int)
    | Staked(user: Address, amount: int)

  /** One observable effect of a call: a native transfer out of the contract
      (`Address.transfer`) or an emitted event (`emit`). */
  datatype Effect = Pay(to: Address, amount: int) | Emit(event: Event)

  function Abs(x: int): nat {
    if x < 0 then -x else x
  }

  /** `BigInteger.divide`: the magnitude of the quotient is the floor of
      the magnitudes' quotient, and its sign is the product of the operands'
      signs, so the quotient is rounded toward zero. */
  function Divide(a: int, b: int): (q: int)
    requires b != 0
    ensures Abs(q) == Abs(a) / Abs(b)
    ensures q == 0 || (q < 0 <==> (a < 0) != (b < 0))
  {
    var m := Abs(a) / Abs(b);
    FloorNonnegative(Abs(a), Abs(b));
    if (a < 0) == (b < 0) then m else -m
  }

  /** The remainder of `BigInteger.divide` is smaller than the divisor and
      has the sign of the dividend; on non-negative operands the quotient is
      the floor quotient. */
  lemma DivideRemainder(a: int, b: int)
    requires b != 0
    ensures Abs(a - Divide(a, b) * b) < Abs(b)
    ensures a - Divide(a, b) * b == 0 || (a - Divide(a, b) * b < 0 <==> a < 0)
    ensures a >= 0 && b > 0 ==> Divide(a, b) == a / b
  {
    var x: int, y: int := Abs(a), Abs(b);
    var q: int, m: int, r: int := Divide(a, b), x / y, x % y;
    assert x == m * y + r && 0 <= r < y;
    FloorNonnegative(x, y);
    assert q * b == (if a < 0 then -(m * y) else m * y) by {
      if b > 0 { assert y == b; } else { assert y == -b; }
      if (a < 0) == (b < 0) { assert q == m; } else { assert q == -m; }
    }
    assert a - q * b == (if a < 0 then -r else r);
  }

  lemma FloorNonnegative(x: nat, y: nat)
    requires y > 0
    ensures x / y >= 0
  {
    assert x == (x / y) * y + x % y;
  }

  /** Truncating division by a positive divisor never decreases as the
      dividend grows. */
  lemma DivideMonotone(a1: int, a2: int, b: int)
    requires b > 0 && a1 <= a2
    ensures Divide(a1, b) <= Divide(a2, b)
  {
    if 0 <= a1 {
      FloorMonotone(a1, a2, b);
    } else if a2 < 0 {
      FloorMonotone(-a2, -a1, b);
    }
  }


  /** Floor division of non-negative numbers is monotone in the dividend. */
  lemma FloorMonotone(x: int, y: int, b: int)
    requires 0 <= x <= y && b > 0
    ensures x / b <= y / b
  {
    var d := x / b - y / b;
    assert x == (x / b) * b + x % b;
    assert y == (y / b) * b + y % b;
    assert d * b == (x - x % b) - (y - y % b);
    BelowOne(d, b);
  }

  lemma MultiplyMonotone(x: int, y: int, c: nat)
    requires x <= y
    ensures x * c <= y * c
  {
  }

  lemma BelowOne(d: int, b: int)
    requires b > 0 && d * b < b
    ensures d < 1
  {
  }
}
