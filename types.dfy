/** Shared vocabulary of the stake ledger: the contract configuration, the
    stake record, time constants and the integer helpers the rest relies on. */
module Types {

  /** An account identifier, as the host hands it to the contract. */
  type Address = string

  /** Length of a day and of a year in the unit of the ledger's timestamps. */
  const SecondsPerDay: int := 86400
  const SecondsPerYear: int := 365 * SecondsPerDay

  /** One entry of an account's stake history (TransferInStruct). */
  datatype StakeRecord = StakeRecord(address: Address, amount: int, time: int)

  /** The read-only part of the contract state (the AerialCC fields other than
      the total supply, which the mint updates and which lives in the ledger). */
  datatype Config = Config(
    name: string,
    symbol: string,
    decimals: nat,
    chainStartTime: int,
    chainStartBlockNumber: int,
    stakeStartTime: int,
    stakeMinAge: int,
    stakeMaxAge: int,
    maxMintProofOfStake: int,
    maxTotalSupply: int,
    totalInitialSupply: int)

  datatype Option<+T> = None | Some(value: T)

  function Abs(x: int): (r: nat)
    ensures r == x || r == -x
  {
    if x < 0 then -x else x
  }

  /** Integer division that truncates toward zero, as the source language's
      `/` on integers does (Dafny's own `/` is Euclidean). */
  function Quot(a: int, b: int): (q: int)
    requires b != 0
    ensures 0 <= a && 0 < b ==> q == a / b
    ensures Abs(q) * Abs(b) <= Abs(a) < (Abs(q) + 1) * Abs(b)
    ensures q != 0 ==> (q < 0 <==> (a < 0) != (b < 0))
  {
    var n, d := Abs(a), Abs(b);
    var m := n / d;
    DivBounds(n, d);
    var q := if (a < 0) == (b < 0) then m else -m;
    assert Abs(q) == m;
    q
  }

  lemma DivBounds(n: nat, d: int)
    requires 0 < d
    ensures 0 <= n / d && (n / d) * d <= n < (n / d + 1) * d
  {
    var m := n / d;
    assert n == d * m + n % d;
    assert (m + 1) * d == m * d + d;
  }

  /** 10 raised to `d`. */
  function Pow10(d: nat): (p: int)
    ensures p >= 1
    ensures d > 0 ==> p % 10 == 0
  {
    if d == 0 then 1 else 10 * Pow10(d - 1)
  }

  /** Truncating division agrees with `/` on non-negative operands, so it is
      monotone there. */
  lemma DivMonotone(a: int, b: int, d: int)
    requires 0 <= a <= b && 0 < d
    ensures a / d <= b / d
  {
    if a / d > b / d {
      assert d * (a / d) >= d * (b / d + 1) by {
        MulMonotone(d, b / d + 1, a / d);
      }
      assert false;
    }
  }

  lemma MulMonotone(k: int, x: int, y: int)
    requires 0 <= k && x <= y
    ensures k * x <= k * y
  {
  }
}
