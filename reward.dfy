/** The reward-rate selector (getProofOfStakeReward): the interest tier for
    the time since staking started, and the reward it yields on a coin-age. */
module Reward {
  import opened Types
  import opened CoinAge

  /** Whole years since staking started. */
  function ElapsedYears(now: int, cfg: Config): (years: nat)
    requires cfg.stakeStartTime < now
    ensures cfg.stakeStartTime + years * SecondsPerYear <= now < cfg.stakeStartTime + (years + 1) * SecondsPerYear
  {
    DivBounds(now - cfg.stakeStartTime, SecondsPerYear);
    (now - cfg.stakeStartTime) / SecondsPerYear
  }

  /** The interest for the current tier: 7.70 times the maximum mint rate in
      the first year, 4.35 times in the second, the rate itself afterwards. */
  function Interest(now: int, cfg: Config): int
    requires cfg.stakeStartTime < now
  {
    var years := ElapsedYears(now, cfg);
    if years == 0 then Quot(770 * cfg.maxMintProofOfStake, 100)
    else if years == 1 then Quot(435 * cfg.maxMintProofOfStake, 100)
    else cfg.maxMintProofOfStake
  }

  /** The divisor that turns coin-age times interest into token units. */
  function RewardDivisor(cfg: Config): (d: int)
    ensures d >= 365
  {
    365 * Pow10(cfg.decimals)
  }

  /** Staking is open at `now`: it has a positive start time that has passed. */
  predicate StakingOpen(now: int, cfg: Config)
  {
    0 < cfg.stakeStartTime < now
  }

  /** getProofOfStakeReward for the account whose history is given: the reward
      and whether the account was eligible for one. */
  function ProofOfStakeReward(history: seq<StakeRecord>, now: int, cfg: Config): (r: (int, bool))
    ensures r.1 <==> StakingOpen(now, cfg) && CoinAgeOf(history, now, cfg) > 0
    ensures !r.1 ==> r.0 == 0
    ensures r.1 ==> Abs(r.0) * RewardDivisor(cfg) <= Abs(CoinAgeOf(history, now, cfg) * Interest(now, cfg))
                                                  < (Abs(r.0) + 1) * RewardDivisor(cfg)
    ensures r.1 && Interest(now, cfg) >= 0 ==> r.0 >= 0
    ensures r.1 && Interest(now, cfg) < 0 ==> r.0 <= 0
  {
    if now <= cfg.stakeStartTime || cfg.stakeStartTime <= 0 then (0, false)
    else
      var coinAge := CoinAgeOf(history, now, cfg);
      if coinAge <= 0 then (0, false)
      else (Quot(coinAge * Interest(now, cfg), RewardDivisor(cfg)), true)
  }

  /** The tier table stated over the clock rather than over the year count:
      a time in the first year since the start earns 770/100 of the rate, one
      in the second year 435/100, and any later time the rate itself. */
  lemma InterestTiers(now: int, cfg: Config)
    requires cfg.stakeStartTime < now
    ensures now < cfg.stakeStartTime + SecondsPerYear ==>
              Interest(now, cfg) == Quot(770 * cfg.maxMintProofOfStake, 100)
    ensures cfg.stakeStartTime + SecondsPerYear <= now < cfg.stakeStartTime + 2 * SecondsPerYear ==>
              Interest(now, cfg) == Quot(435 * cfg.maxMintProofOfStake, 100)
    ensures cfg.stakeStartTime + 2 * SecondsPerYear <= now ==>
              Interest(now, cfg) == cfg.maxMintProofOfStake
  {
    var years := ElapsedYears(now, cfg);
    if years >= 2 {
      MulMonotone(SecondsPerYear, 2, years);
    }
    if now >= cfg.stakeStartTime + SecondsPerYear {
      assert years != 0;
    }
    if now >= cfg.stakeStartTime + 2 * SecondsPerYear {
      assert years != 0 && years != 1;
    }
  }

  /** With a non-negative maximum mint rate the interest only falls as the
      years pass, and never below the rate itself. */
  lemma InterestNonIncreasing(now: int, later: int, cfg: Config)
    requires cfg.stakeStartTime < now <= later && cfg.maxMintProofOfStake >= 0
    ensures cfg.maxMintProofOfStake <= Interest(later, cfg) <= Interest(now, cfg)
  {
    DivMonotone(now - cfg.stakeStartTime, later - cfg.stakeStartTime, SecondsPerYear);
    var m := cfg.maxMintProofOfStake;
    assert 435 * m / 100 <= 770 * m / 100 by {
      DivMonotone(435 * m, 770 * m, 100);
    }
    assert m <= 435 * m / 100 by {
      DivMonotone(100 * m, 435 * m, 100);
    }
  }

  /** A record too young to count changes no reward. */
  lemma YoungRecordEarnsNothing(history: seq<StakeRecord>, k: nat, r: StakeRecord, now: int, cfg: Config)
    requires k <= |history|
    requires now < r.time + cfg.stakeMinAge
    ensures ProofOfStakeReward(history[..k] + [r] + history[k..], now, cfg) == ProofOfStakeReward(history, now, cfg)
  {
    YoungRecordIgnored(history, k, r, now, cfg);
  }

  /** An empty history never earns a reward. */
  lemma EmptyHistoryEarnsNothing(now: int, cfg: Config)
    ensures ProofOfStakeReward([], now, cfg) == (0, false)
  {
  }
}
