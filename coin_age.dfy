/** The coin-age calculator (getCoinAge): how much, and for how long, an
    account has held its staked balance. */
module CoinAge {
  import opened Types

  /** Seconds of a record's age that count at `now`: the age, clamped to
      the configured maximum. */
  function ClampedAge(r: StakeRecord, now: int, cfg: Config): (age: int)
    ensures age <= cfg.stakeMaxAge && age <= now - r.time
    ensures age == now - r.time || age == cfg.stakeMaxAge
  {
    if now - r.time > cfg.stakeMaxAge then cfg.stakeMaxAge else now - r.time
  }

  /** A record counts once it has been held for the minimum stake age. */
  predicate Matured(r: StakeRecord, now: int, cfg: Config)
  {
    now >= r.time + cfg.stakeMinAge
  }

  /** What one record adds to the coin-age: its amount times the whole days
      of its clamped age, or nothing while it is too young. */
  function Weight(r: StakeRecord, now: int, cfg: Config): int
  {
    if Matured(r, now, cfg) then r.amount * Quot(ClampedAge(r, now, cfg), SecondsPerDay) else 0
  }

  /** The coin-age of a history: the sum of the weights of its records. */
  function CoinAgeOf(history: seq<StakeRecord>, now: int, cfg: Config): int
  {
    if history == [] then 0
    else CoinAgeOf(history[..|history| - 1], now, cfg) + Weight(history[|history| - 1], now, cfg)
  }

  /** Sum of the amounts of a history. */
  function TotalAmount(history: seq<StakeRecord>): int
  {
    if history == [] then 0 else TotalAmount(history[..|history| - 1]) + history[|history| - 1].amount
  }

  /** All amounts of the history are non-negative. */
  predicate NonNegativeAmounts(history: seq<StakeRecord>)
  {
    forall i :: 0 <= i < |history| ==> history[i].amount >= 0
  }

  /** A configuration whose stake ages are non-negative durations. */
  predicate SaneAges(cfg: Config)
  {
    0 <= cfg.stakeMinAge && 0 <= cfg.stakeMaxAge
  }

  /** getCoinAge: walks the history once, skipping young records and clamping
      old ones. An empty history is the ineligible result (0, false). */
  method GetCoinAge(history: seq<StakeRecord>, now: int, cfg: Config) returns (coinAge: int, ok: bool)
    ensures ok <==> history != []
    ensures coinAge == if ok then CoinAgeOf(history, now, cfg) else 0
  {
    if |history| <= 0 {
      return 0, false;
    }
    coinAge := 0;
    var i := 0;
    while i < |history|
      invariant 0 <= i <= |history|
      invariant coinAge == CoinAgeOf(history[..i], now, cfg)
    {
      assert history[..i + 1][..i] == history[..i];
      var r := history[i];
      if now < r.time + cfg.stakeMinAge {
        i := i + 1;
        continue;
      }
      var coinSeconds := now - r.time;
      if coinSeconds > cfg.stakeMaxAge {
        coinSeconds := cfg.stakeMaxAge;
      }
      coinAge := coinAge + r.amount * Quot(coinSeconds, SecondsPerDay);
      i := i + 1;
    }
    assert history[..i] == history;
    ok := true;
  }

  /** Coin-age is additive over concatenated histories. */
  lemma {:induction false} CoinAgeAppend(a: seq<StakeRecord>, b: seq<StakeRecord>, now: int, cfg: Config)
    ensures CoinAgeOf(a + b, now, cfg) == CoinAgeOf(a, now, cfg) + CoinAgeOf(b, now, cfg)
    decreases |b|
  {
    if b == [] {
      assert a + b == a;
    } else {
      var b' := b[..|b| - 1];
      assert (a + b)[..|a + b| - 1] == a + b';
      assert (a + b)[|a + b| - 1] == b[|b| - 1];
      CoinAgeAppend(a, b', now, cfg);
    }
  }

  /** A record still younger than the minimum stake age, inserted anywhere in
      the history, leaves the coin-age unchanged. */
  lemma YoungRecordIgnored(history: seq<StakeRecord>, k: nat, r: StakeRecord, now: int, cfg: Config)
    requires k <= |history|
    requires now < r.time + cfg.stakeMinAge
    ensures CoinAgeOf(history[..k] + [r] + history[k..], now, cfg) == CoinAgeOf(history, now, cfg)
  {
    CoinAgeAppend(history[..k] + [r], history[k..], now, cfg);
    CoinAgeAppend(history[..k], [r], now, cfg);
    CoinAgeAppend(history[..k], history[k..], now, cfg);
    assert [r][..0] == [];
    assert history[..k] + history[k..] == history;
  }

  /** Whole days of clamped age are never negative when the ages are sane. */
  lemma WeightNonNegative(r: StakeRecord, now: int, cfg: Config)
    requires SaneAges(cfg) && r.amount >= 0
    ensures 0 <= Weight(r, now, cfg) <= r.amount * (cfg.stakeMaxAge / SecondsPerDay)
  {
    if Matured(r, now, cfg) {
      var age := ClampedAge(r, now, cfg);
      assert 0 <= age <= cfg.stakeMaxAge;
      DivMonotone(age, cfg.stakeMaxAge, SecondsPerDay);
      MulMonotone(r.amount, age / SecondsPerDay, cfg.stakeMaxAge / SecondsPerDay);
    }
  }

  /** With non-negative amounts and sane ages, coin-age is never negative and
      never more than every amount held for the maximum age. */
  lemma {:induction false} CoinAgeBounds(history: seq<StakeRecord>, now: int, cfg: Config)
    requires SaneAges(cfg) && NonNegativeAmounts(history)
    ensures 0 <= CoinAgeOf(history, now, cfg) <= TotalAmount(history) * (cfg.stakeMaxAge / SecondsPerDay)
    decreases |history|
  {
    if history != [] {
      var init := history[..|history| - 1];
      var last := history[|history| - 1];
      assert NonNegativeAmounts(init) by {
        forall i | 0 <= i < |init| ensures init[i].amount >= 0 {
          assert init[i] == history[i];
        }
      }
      CoinAgeBounds(init, now, cfg);
      WeightNonNegative(last, now, cfg);
      Distribute(TotalAmount(init), last.amount, cfg.stakeMaxAge / SecondsPerDay);
    }
  }

  lemma Distribute(x: int, y: int, k: int)
    ensures (x + y) * k == x * k + y * k
  {
  }

  /** The coin-age of an empty history is zero. */
  lemma EmptyHistoryHasNoCoinAge(now: int, cfg: Config)
    ensures CoinAgeOf([], now, cfg) == 0
  {
  }

  /** A record that has reached the maximum age stops accruing: later clocks
      give it the same weight. */
  lemma SaturatedWeightConstant(r: StakeRecord, now: int, later: int, cfg: Config)
    requires now <= later
    requires Matured(r, now, cfg) && now - r.time >= cfg.stakeMaxAge
    ensures Weight(r, later, cfg) == Weight(r, now, cfg)
  {
  }

  /** Holding longer never lowers a record's weight. */
  lemma WeightMonotone(r: StakeRecord, now: int, later: int, cfg: Config)
    requires SaneAges(cfg) && r.amount >= 0 && now <= later
    ensures Weight(r, now, cfg) <= Weight(r, later, cfg)
  {
    WeightNonNegative(r, now, cfg);
    if Matured(r, now, cfg) {
      var a, b := ClampedAge(r, now, cfg), ClampedAge(r, later, cfg);
      DivMonotone(a, b, SecondsPerDay);
      MulMonotone(r.amount, a / SecondsPerDay, b / SecondsPerDay);
    }
  }

  /** Coin-age never decreases as time passes (non-negative amounts, sane ages). */
  lemma {:induction false} CoinAgeMonotone(history: seq<StakeRecord>, now: int, later: int, cfg: Config)
    requires SaneAges(cfg) && NonNegativeAmounts(history) && now <= later
    ensures CoinAgeOf(history, now, cfg) <= CoinAgeOf(history, later, cfg)
    decreases |history|
  {
    if history != [] {
      var init := history[..|history| - 1];
      assert NonNegativeAmounts(init) by {
        forall i | 0 <= i < |init| ensures init[i].amount >= 0 {
          assert init[i] == history[i];
        }
      }
      CoinAgeMonotone(init, now, later, cfg);
      WeightMonotone(history[|history| - 1], now, later, cfg);
    }
  }
}
