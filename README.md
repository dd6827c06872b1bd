# Proof-of-stake token ledger (AerialCC chaincode), modelled in Dafny

The model covers the core of `ex02.go`, a chaincode for a token with a
proof-of-stake minting mechanism. The core has four parts:

- **coin-age** (`getCoinAge`). Each stake record's amount is weighted by the
  whole days it has been held. Records younger than the minimum stake age are
  skipped. Ages are capped at the maximum stake age.
- **reward-rate selection** (`getProofOfStakeReward`). The interest tier
  depends on the whole years since staking started: 770/100 of the maximum
  mint rate in year 0, 435/100 in year 1, the rate itself later. The reward is
  `coinAge * interest / (365 * 10^decimals)`, truncated toward zero.
- **mint-and-settle** (`MinePoS`, with the supply cap of `increaseTotalSupply`).
  The reward is credited to the staker's balance and to the total supply, and
  the staker's stake history is replaced by one fresh record.
- **balance transfer** (`MakePayment`).

Files:

- `types.dfy`, module `Types`: the configuration (the `AerialCC` fields),
  the stake record (`TransferInStruct`), the day and year lengths, and
  truncating division `Quot`.
- `coin_age.dfy`, module `CoinAge`: the specification function `CoinAgeOf`
  and the loop `GetCoinAge`, which is proved to compute it, plus lemmas.
- `reward.dfy`, module `Reward`: the interest tiers and the reward.
- `ledger.dfy`, module `Ledger`: transfer and mint as functions on a ledger
  snapshot (`Transfer`, `Mint`), with their lemmas. Also the classes `Store`
  (the host's key/value store, with balances and stake histories as maps) and
  `AerialCC` (configuration and mutable total supply). Their methods
  `MakePayment`, `IncreaseTotalSupply` and `MinePoS` update those fields in
  place, and each is proved to produce exactly the state the matching
  function describes.

Modelling choices:

- Time is a parameter `now`. One transaction uses one timestamp, although the
  source reads the clock separately for the reward (line 234) and for the new
  record (line 221).
- The source mixes nanosecond constants (lines 39-40) with second timestamps
  (line 234). Here `SecondsPerDay` (86400) and `SecondsPerYear`
  (365 days) are in the timestamp unit. The stake ages in the configuration
  are in that unit too. Line 283 is read as "clamped age divided by the day
  length".
- The stake history is keyed by address. This replaces the SHA-256 key of
  address ++ "transferIn" (lines 188-191), which is injective in intent. A
  missing history reads as empty. The emptiness test at lines 199 and 269 is
  read as "the decoded history is empty".
- Go's integer `/` truncates toward zero. `Quot` models it wherever an operand
  may be negative: the age in days, the 770/100 and 435/100 tiers, and the
  final reward.
- `increaseTotalSupply` is not defined in the file. It is modelled as a cap
  check: it fails when `totalSupply + reward > maxTotalSupply`, and otherwise
  adds the reward.
- Line 221 writes the new record's amount as `src + reward`, after line 214
  has already added `reward` to `src`. The model follows this literally: the
  record holds the old balance plus twice the reward (`NewRecordAmount`).
  The intended amount is arguably the new balance, but the code does not say
  so.
- A missing balance entry for the staker, the payer or the payee is the error
  `AccountNotFound`, and nothing changes.
- A stricter ledger would reject a transfer that makes the payer's balance
  negative. The code has no such check, and the model follows the code:
  balances may go negative.
- In the worked example `Ledger.MintExample` (`stakeStartTime = t0 - 1`,
  `now = t0 + one year`) the time since the start is one year and one second.
  So the second-year tier (435/100) applies, not the first-year tier one might
  expect from a one-year stake. The lemma states the values the code gives.
- Go's `**` is not an operator. `10**decimals` is read as a power of ten with
  `decimals` a natural number.
- The struct field is spelled `maxMineProofOfStake` (line 52) but read as
  `maxMintProofOfStake` (lines 245-249). The model uses the latter name.

## Model

| member | source | states |
|---|---|---|
| `Types.Quot` | ex02.go:252 | integer division truncating toward zero: the quotient's magnitude is the floor of the magnitudes, its sign is the product of the signs, and it agrees with `/` on non-negative operands |
| `Types.Pow10` | ex02.go:252 | `10^decimals` is at least 1 (so the reward divisor is never zero) and a multiple of 10 for a positive exponent |
| `CoinAge.Weight` | ex02.go:275-283 | definition of one record's contribution; properties in `CoinAge.WeightNonNegative`, `CoinAge.WeightMonotone`, `CoinAge.SaturatedWeightConstant` and `CoinAge.YoungRecordIgnored` |
| `CoinAge.CoinAgeOf` | ex02.go:273-284 | definition of coin-age as the sum of the weights; properties in `CoinAge.GetCoinAge`, `CoinAge.CoinAgeAppend`, `CoinAge.CoinAgeBounds` and `CoinAge.CoinAgeMonotone` |
| `CoinAge.ClampedAge` | ex02.go:278-282 | the counted age is the real age or the maximum stake age, whichever is smaller |
| `CoinAge.GetCoinAge` | ex02.go:256-286 | the loop is ineligible (0, false) exactly on an empty history, and otherwise returns the sum over the records of amount times whole days of clamped age, skipping records held less than the minimum age |
| `CoinAge.CoinAgeAppend` | ex02.go:273-284 | coin-age is additive: the coin-age of two histories joined is the sum of their coin-ages |
| `CoinAge.YoungRecordIgnored` | ex02.go:275-277 | a record with `now < time + stakeMinAge`, inserted anywhere in a history, leaves its coin-age unchanged |
| `CoinAge.WeightNonNegative` | ex02.go:278-283 | with non-negative stake ages and amount, one record contributes between 0 and amount times whole days of the maximum age |
| `CoinAge.CoinAgeBounds` | ex02.go:273-284 | with non-negative amounts and stake ages, coin-age is never negative and at most the total amount times whole days of the maximum age |
| `CoinAge.EmptyHistoryHasNoCoinAge` | ex02.go:269-271 | the empty history has coin-age 0 |
| `CoinAge.SaturatedWeightConstant` | ex02.go:280-282 | once a matured record's age reaches the maximum, its contribution stays the same at every later time |
| `CoinAge.WeightMonotone` | ex02.go:275-283 | with non-negative amount and ages, a record's contribution never decreases as time passes |
| `CoinAge.CoinAgeMonotone` | ex02.go:273-284 | with non-negative amounts and ages, a history's coin-age never decreases as time passes |
| `Reward.ElapsedYears` | ex02.go:246-248 | the year count places `now` in the half-open year `[start + y*year, start + (y+1)*year)` |
| `Reward.Interest` | ex02.go:244-250 | definition of the interest tiers; properties in `Reward.InterestTiers` and `Reward.InterestNonIncreasing` |
| `Reward.RewardDivisor` | ex02.go:252 | the divisor `365 * 10^decimals` is at least 365 |
| `Reward.ProofOfStakeReward` | ex02.go:232-254 | eligible exactly when `stakeStartTime > 0`, `now > stakeStartTime` and the coin-age is positive; ineligible gives 0; an eligible reward is coin-age times interest divided by the divisor, truncated (the magnitude bounds), and non-negative when the interest is non-negative and non-positive when it is negative |
| `Reward.InterestTiers` | ex02.go:244-250 | during the first year after the stake start the interest is `770*rate/100`, during the second year `435*rate/100`, and from two years on it is the rate |
| `Reward.InterestNonIncreasing` | ex02.go:244-250 | with a non-negative rate, the interest never rises over time and never drops below the rate |
| `Reward.YoungRecordEarnsNothing` | ex02.go:239-252 | adding a record younger than the minimum stake age changes neither the reward nor the eligibility |
| `Reward.EmptyHistoryEarnsNothing` | ex02.go:239-242 | an empty history yields (0, false) |
| `Ledger.Transfer` | ex02.go:119-153 | fails exactly when the payer or the payee has no balance, naming the first missing party; on success it keeps the key set, debits the payer by X and credits the payee by X, conserves payer + payee, changes no other account, and a payment to oneself changes nothing |
| `Ledger.TransferAsWritten` | ex02.go:129-150 | definition of MakePayment as written (both reads before both writes); properties in `Ledger.TransferAgreesForDistinctParties` and `Ledger.SelfPaymentCreatesTokens` |
| `Ledger.TransferAgreesForDistinctParties` | ex02.go:129-150 | for distinct parties, the source's read-both-then-write-both order gives the same result as `Transfer` |
| `Ledger.SelfPaymentCreatesTokens` | ex02.go:129-150 | as written, a payment of X from an account to itself raises its balance by X, which differs from `Transfer` whenever X is not 0 |
| `Ledger.IncreasedSupply` | ex02.go:208-212 | the supply increase succeeds exactly when the new supply stays within `maxTotalSupply`, and then adds exactly the amount |
| `Ledger.NewRecordAmount` | ex02.go:214-221 | definition of the fresh record's amount (new balance plus the reward again); its value, old balance + 2*reward, is stated in `Ledger.Mint` and `Ledger.MintExample` |
| `Ledger.Mint` | ex02.go:180-230 | succeeds exactly when the account exists, its history is non-empty, the reward is positive and the cap holds. A missing account fails with AccountNotFound. An existing account with an empty history or a reward of 0 or less gets the normal answer NotEligible, not an error. A passed cap fails with SupplyCapExceeded. Any non-success leaves the whole state unchanged. A success adds the same positive reward to the balance and to the total supply, keeps the supply within the cap, replaces the history by the single record (staker, old balance + 2*reward, now), and leaves every other balance and history unchanged |
| `Ledger.MintKeepsSupplyCap` | ex02.go:208-212 | `totalSupply <= maxTotalSupply` is preserved by every mint |
| `Ledger.NoSecondMintAtSameInstant` | ex02.go:220-222 | with a positive minimum stake age, a second mint at the same instant is not eligible, because the fresh record has not matured |
| `Ledger.MintExample` | ex02.go:180-252 | the worked example: coin-age 365000, second-year interest 435000, reward 435000000, new balance and supply 435001000, one record of amount 870001000 |
| `Ledger.MakePayment` | ex02.go:119-153 | the method leaves the stake histories alone and produces exactly `Transfer`'s balances and error |
| `Ledger.AerialCC.IncreaseTotalSupply` | ex02.go:208-212 | adds the amount to the total supply when the cap allows and reports success, otherwise changes nothing and reports failure; it preserves the supply-cap invariant `Valid()` |
| `Ledger.AerialCC.MinePoS` | ex02.go:180-230 | the method's outcome and the new balances, histories and total supply are exactly `Mint`'s, and it preserves the supply-cap invariant |

## Findings

| source | as written | input that shows it | evidently intended | confidence | as-written member | corrected member |
|---|---|---|---|---|---|---|
| ex02.go:129-150 | both balances are read before either is written, so when `partySrc == partyDst` the second write, computed from the balance before the debit, wins | balances {A: 10}, payment of 5 from A to A: A ends at 15 | a payment to oneself leaves the balance unchanged, so no tokens are created | not executed | `Ledger.SelfPaymentCreatesTokens` | `Ledger.Transfer` |

`Ledger.MakePayment` implements the corrected reading. It reads the payee's
balance after the debit has been written.

## Left out

- `Init` (ex02.go:69-105): argument parsing, date parsing and the argument
  count. The model takes a ready-made `Config` and initial total supply.
- `Query` dispatch (ex02.go:107-116), `CheckBalance` (ex02.go:169-178) and
  `DeleteAccount` (ex02.go:156-166): a name switch, a plain read and a plain
  delete, with no behaviour to prove.
- `main`, `shim.Start` and logging (ex02.go:288-303): host plumbing.
- SHA-256 key derivation (ex02.go:188-191, 258-261): a library hash. Histories
  are keyed by address directly.
- JSON encoding of histories and decimal encoding of balances (ex02.go:140,
  146, 193, 215, 223, 263): library encoders. The model stores records and
  integers directly. So the decode error exits (lines 195-197 and 265-267)
  and the encode error exit (lines 224-226) are not modelled.
- The encode error exit at ex02.go:224-226 returns after the total supply was
  already raised (line 208) and the balance already written (line 215). The
  source leaves a partial mutation there. `Ledger.Mint` and
  `Ledger.AerialCC.MinePoS` do not model this exit, so their promise that a
  non-success changes nothing does not cover it.
- `time.Now()` (ex02.go:221, 234): the clock is the parameter `now`.
- Store read and write failures reported by the host (`err` from
  `GetState`/`PutState`): external failures, not modelled.
- 64-bit wrap-around of Go's `int`: the model uses unbounded integers, so
  balance, supply and coin-age arithmetic never overflows.
