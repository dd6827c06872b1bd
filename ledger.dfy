/** The ledger transactions: the balance transfer (MakePayment) and the
    mint-and-settle step of proof-of-stake (MinePoS), first as functions on a
    ledger snapshot, then as methods on the contract and its key/value store. */
module Ledger {
  import opened Types
  import opened CoinAge
  import opened Reward

  datatype Error = AccountNotFound(address: Address) | SupplyCapExceeded

  datatype Result<T> = Ok(value: T) | Err(error: Error)

  /** What a mint attempt comes to: a reward credited, a normal "nothing due"
      answer, or an error. */
  datatype MintOutcome = Minted(reward: int) | NotEligible | Failed(error: Error)

  /** The part of the ledger the core reads and writes: balances by address,
      stake history by address, and the contract's total supply. */
  datatype State = State(
    balances: map<Address, int>,
    transferIns: map<Address, seq<StakeRecord>>,
    totalSupply: int)

  /** An address's stake history; a missing entry reads as the empty history. */
  function History(transferIns: map<Address, seq<StakeRecord>>, addr: Address): seq<StakeRecord>
  {
    if addr in transferIns then transferIns[addr] else []
  }

  // ---------------------------------------------------------------------
  // Balance transfer

  /** MakePayment as the source writes it: both balances are read before
      either is written, so a payment to oneself ends with the destination's
      write, which was computed from the balance before the debit. */
  function TransferAsWritten(balances: map<Address, int>, src: Address, dst: Address, x: int): Result<map<Address, int>>
  {
    if src !in balances then Err(AccountNotFound(src))
    else if dst !in balances then Err(AccountNotFound(dst))
    else Ok(balances[src := balances[src] - x][dst := balances[dst] + x])
  }

  /** MakePayment with the destination read after the debit is written, so
      that a payment to oneself changes nothing. */
  function Transfer(balances: map<Address, int>, src: Address, dst: Address, x: int): (r: Result<map<Address, int>>)
    ensures r.Err? <==> src !in balances || dst !in balances
    ensures src !in balances ==> r == Err(AccountNotFound(src))
    ensures src in balances && dst !in balances ==> r == Err(AccountNotFound(dst))
    ensures r.Ok? ==> r.value.Keys == balances.Keys
    ensures r.Ok? && src != dst ==> r.value[src] == balances[src] - x && r.value[dst] == balances[dst] + x
    ensures r.Ok? ==> r.value[src] + r.value[dst] == balances[src] + balances[dst]
    ensures r.Ok? && src == dst ==> r.value == balances
    ensures r.Ok? ==> forall a :: a in balances && a != src && a != dst ==> r.value[a] == balances[a]
  {
    if src !in balances then Err(AccountNotFound(src))
    else if dst !in balances then Err(AccountNotFound(dst))
    else
      var debited := balances[src := balances[src] - x];
      Ok(debited[dst := debited[dst] + x])
  }

  /** The two readings agree whenever the parties differ. */
  lemma TransferAgreesForDistinctParties(balances: map<Address, int>, src: Address, dst: Address, x: int)
    requires src != dst
    ensures TransferAsWritten(balances, src, dst, x) == Transfer(balances, src, dst, x)
  {
  }

  /** As written, a payment of `x` to oneself raises one's balance by `x`:
      tokens are created, and the pair of balances is not conserved. */
  lemma SelfPaymentCreatesTokens(balances: map<Address, int>, a: Address, x: int)
    requires a in balances
    ensures TransferAsWritten(balances, a, a, x) == Ok(balances[a := balances[a] + x])
    ensures x != 0 ==> TransferAsWritten(balances, a, a, x) != Transfer(balances, a, a, x)
  {
    assert balances[a := balances[a] - x][a := balances[a] + x] == balances[a := balances[a] + x];
    if x != 0 {
      assert balances[a := balances[a] + x][a] != balances[a];
    }
  }

  // ---------------------------------------------------------------------
  // Mint and settle

  /** increaseTotalSupply: the new total supply, or nothing when it would pass
      the cap. */
  function IncreasedSupply(supply: int, cap: int, amount: int): (r: Option<int>)
    ensures r.Some? <==> supply + amount <= cap
    ensures r.Some? ==> r.value <= cap && r.value - supply == amount
  {
    if supply + amount > cap then None else Some(supply + amount)
  }

  /** The amount written into the fresh stake record. The source adds the
      reward to a balance that already includes it, so the record carries the
      new balance plus the reward once more. */
  function NewRecordAmount(newBalance: int, reward: int): int
  {
    newBalance + reward
  }

  /** The reward the address would be minted at `now`. */
  function MintReward(s: State, cfg: Config, addr: Address, now: int): int
  {
    ProofOfStakeReward(History(s.transferIns, addr), now, cfg).0
  }

  /** The conditions under which a mint goes through, in the source's order. */
  predicate CanMint(s: State, cfg: Config, addr: Address, now: int)
  {
    && addr in s.balances
    && History(s.transferIns, addr) != []
    && MintReward(s, cfg, addr, now) > 0
    && s.totalSupply + MintReward(s, cfg, addr, now) <= cfg.maxTotalSupply
  }

  /** MinePoS on a ledger snapshot: the outcome and the state afterwards. */
  function Mint(s: State, cfg: Config, addr: Address, now: int): (r: (MintOutcome, State))
    ensures r.0.Minted? <==> CanMint(s, cfg, addr, now)
    ensures addr !in s.balances ==> r.0 == Failed(AccountNotFound(addr))
    ensures addr in s.balances && (History(s.transferIns, addr) == [] || MintReward(s, cfg, addr, now) <= 0) ==>
              r.0 == NotEligible
    ensures r.0 == Failed(SupplyCapExceeded) <==>
              addr in s.balances && History(s.transferIns, addr) != [] && MintReward(s, cfg, addr, now) > 0
              && s.totalSupply + MintReward(s, cfg, addr, now) > cfg.maxTotalSupply
    ensures !r.0.Minted? ==> r.1 == s
    ensures r.0.Minted? ==>
              && r.0.reward == MintReward(s, cfg, addr, now) > 0
              && r.1.totalSupply == s.totalSupply + r.0.reward <= cfg.maxTotalSupply
              && r.1.balances.Keys == s.balances.Keys
              && r.1.balances[addr] == s.balances[addr] + r.0.reward
              && History(r.1.transferIns, addr) == [StakeRecord(addr, s.balances[addr] + 2 * r.0.reward, now)]
    ensures r.0.Minted? ==> forall a :: a in s.balances && a != addr ==> r.1.balances[a] == s.balances[a]
    ensures r.0.Minted? ==> forall a :: a != addr ==> History(r.1.transferIns, a) == History(s.transferIns, a)
  {
    if addr !in s.balances then (Failed(AccountNotFound(addr)), s)
    else if |History(s.transferIns, addr)| <= 0 then (NotEligible, s)
    else
      var reward := MintReward(s, cfg, addr, now);
      if reward <= 0 then (NotEligible, s)
      else
        match IncreasedSupply(s.totalSupply, cfg.maxTotalSupply, reward)
        case None => (Failed(SupplyCapExceeded), s)
        case Some(supply) =>
          var balance := s.balances[addr] + reward;
          var record := StakeRecord(addr, NewRecordAmount(balance, reward), now);
          (Minted(reward), State(s.balances[addr := balance], s.transferIns[addr := [record]], supply))
  }

  /** The total supply never passes the cap: a mint on a state within the cap
      leaves a state within the cap. */
  lemma MintKeepsSupplyCap(s: State, cfg: Config, addr: Address, now: int)
    requires s.totalSupply <= cfg.maxTotalSupply
    ensures Mint(s, cfg, addr, now).1.totalSupply <= cfg.maxTotalSupply
  {
  }

  /** Minting twice at the same instant pays once: the fresh record has not
      matured unless the minimum stake age is zero or less, so the second
      attempt finds no coin-age. */
  lemma {:induction false} NoSecondMintAtSameInstant(s: State, cfg: Config, addr: Address, now: int)
    requires cfg.stakeMinAge > 0
    requires Mint(s, cfg, addr, now).0.Minted?
    ensures Mint(Mint(s, cfg, addr, now).1, cfg, addr, now).0 == NotEligible
  {
    var s' := Mint(s, cfg, addr, now).1;
    var h := History(s'.transferIns, addr);
    assert |h| == 1 && !Matured(h[0], now, cfg);
    assert h[..0] == [];
    assert CoinAgeOf(h, now, cfg) == 0;
  }

  /** The worked example: one record of 1000 staked exactly one year before
      `now`, staking opened one second before the record, rate 100000, no
      decimals. The coin-age is 1000 * 365 whole days, the second-year tier
      (435/100) applies, and the reward is 435000000. */
  lemma MintExample()
    ensures
      var t0 := 1000000000;
      var cfg := Config("Aerial", "AER", 0, t0, 0, t0 - 1, 0, SecondsPerYear, 100000, 1000000000000, 1000);
      var s := State(map["A" := 1000], map["A" := [StakeRecord("A", 1000, t0)]], 1000);
      var now := t0 + SecondsPerYear;
      && CoinAgeOf(History(s.transferIns, "A"), now, cfg) == 365000
      && Interest(now, cfg) == 435000
      && Mint(s, cfg, "A", now) ==
         (Minted(435000000),
          State(map["A" := 435001000], map["A" := [StakeRecord("A", 870001000, now)]], 435001000))
  {
    var t0 := 1000000000;
    var cfg := Config("Aerial", "AER", 0, t0, 0, t0 - 1, 0, SecondsPerYear, 100000, 1000000000000, 1000);
    var now := t0 + SecondsPerYear;
    var s := State(map["A" := 1000], map["A" := [StakeRecord("A", 1000, t0)]], 1000);
    var h := [StakeRecord("A", 1000, t0)];
    assert h[..0] == [];
    assert Weight(h[0], now, cfg) == 1000 * 365;
    assert CoinAgeOf(h, now, cfg) == 365000;
    assert ElapsedYears(now, cfg) == 1;
    assert Interest(now, cfg) == 435000;
    assert RewardDivisor(cfg) == 365;
    assert Quot(365000 * 435000, 365) == 435000000;
    assert MintReward(s, cfg, "A", now) == 435000000;
    assert NewRecordAmount(435001000, 435000000) == 870001000;
    assert s.balances["A" := 435001000] == map["A" := 435001000];
    assert s.transferIns["A" := [StakeRecord("A", 870001000, now)]] == map["A" := [StakeRecord("A", 870001000, now)]];
  }

  // ---------------------------------------------------------------------
  // The contract and its store

  /** The host's key/value store, holding balances and stake histories. */
  class Store {
    var balances: map<Address, int>
    var transferIns: map<Address, seq<StakeRecord>>

    constructor (balances: map<Address, int>, transferIns: map<Address, seq<StakeRecord>>)
      ensures this.balances == balances && this.transferIns == transferIns
    {
      this.balances := balances;
      this.transferIns := transferIns;
    }
  }

  /** MakePayment: moves `x` from `src` to `dst` in the store. */
  method MakePayment(stub: Store, src: Address, dst: Address, x: int) returns (err: Option<Error>)
    modifies stub
    ensures stub.transferIns == old(stub.transferIns)
    ensures match Transfer(old(stub.balances), src, dst, x)
            case Ok(b) => err == None && stub.balances == b
            case Err(e) => err == Some(e) && stub.balances == old(stub.balances)
  {
    if src !in stub.balances {
      return Some(AccountNotFound(src));
    }
    if dst !in stub.balances {
      return Some(AccountNotFound(dst));
    }
    var srcBalance := stub.balances[src] - x;
    stub.balances := stub.balances[src := srcBalance];
    var dstBalance := stub.balances[dst] + x;
    stub.balances := stub.balances[dst := dstBalance];
    return None;
  }

  /** The contract instance: its configuration and its total supply. */
  class AerialCC {
    const config: Config
    var totalSupply: int

    /** The supply cap holds. */
    ghost predicate Valid()
      reads this
    {
      totalSupply <= config.maxTotalSupply
    }

    /** The ledger snapshot formed by this contract and a store. */
    ghost function Snapshot(stub: Store): State
      reads this, stub
    {
      State(stub.balances, stub.transferIns, totalSupply)
    }

    constructor (config: Config, totalSupply: int)
      ensures this.config == config && this.totalSupply == totalSupply
      ensures totalSupply <= config.maxTotalSupply ==> Valid()
    {
      this.config := config;
      this.totalSupply := totalSupply;
    }

    /** increaseTotalSupply: adds `amount` to the total supply unless that
        would pass the cap. */
    method IncreaseTotalSupply(amount: int) returns (newTS: int, ok: bool)
      modifies this
      ensures ok <==> IncreasedSupply(old(totalSupply), config.maxTotalSupply, amount).Some?
      ensures ok ==> totalSupply == IncreasedSupply(old(totalSupply), config.maxTotalSupply, amount).value
      ensures !ok ==> totalSupply == old(totalSupply)
      ensures newTS == totalSupply
      ensures old(Valid()) ==> Valid()
    {
      if totalSupply + amount > config.maxTotalSupply {
        return totalSupply, false;
      }
      totalSupply := totalSupply + amount;
      return totalSupply, true;
    }

    /** MinePoS: credits the proof-of-stake reward of `addr` at `now` to its
        balance and to the total supply, and restarts its stake history. */
    method MinePoS(stub: Store, addr: Address, now: int) returns (outcome: MintOutcome)
      modifies this, stub
      ensures (outcome, Snapshot(stub)) == Mint(old(Snapshot(stub)), config, addr, now)
      ensures old(Valid()) ==> Valid()
    {
      if addr !in stub.balances {
        return Failed(AccountNotFound(addr));
      }
      var src := stub.balances[addr];
      var transferIns := History(stub.transferIns, addr);
      if |transferIns| <= 0 {
        return NotEligible;
      }
      var reward := ProofOfStakeReward(transferIns, now, config).0;
      if reward <= 0 {
        return NotEligible;
      }
      var newTS, ok := IncreaseTotalSupply(reward);
      if !ok {
        return Failed(SupplyCapExceeded);
      }
      src := src + reward;
      stub.balances := stub.balances[addr := src];
      var um: seq<StakeRecord> := [];
      um := um + [StakeRecord(addr, NewRecordAmount(src, reward), now)];
      assert um == [StakeRecord(addr, NewRecordAmount(src, reward), now)];
      stub.transferIns := stub.transferIns[addr := um];
      return Minted(reward);
    }
  }
}
