/** The minting step that runs every block, with its hard cap, over a bank ledger. */
module HardCap {
  import opened Permutations

  // ---------- configuration ----------

  datatype Coin = Coin(denom: string, amount: int)

  datatype Config = Config(capDenom: string, capAmount: int)

  const MINT_HARD_CAP := Config("ubps", 100_000_000_000_000)

  const MINT_ACCOUNT := "mint"
  const FEE_COLLECTOR := "fee_collector"

  /** Minting of this denomination is capped. */
  predicate Capped(cfg: Config, denom: string) {
    cfg.capDenom != "" && cfg.capAmount > 0 && denom == cfg.capDenom
  }

  function Min(a: int, b: int): int {
    if a <= b then a else b
  }

  function Max(a: int, b: int): int {
    if a >= b then a else b
  }

  // ---------- the clamp ----------

  function Clamp(currentSupply: int, minted: Coin, cfg: Config): Coin {
    if minted.amount <= 0 then minted
    else if cfg.capDenom == "" || cfg.capAmount <= 0 then minted
    else if minted.denom != cfg.capDenom then minted
    else if currentSupply >= cfg.capAmount then Coin(minted.denom, 0)
    else
      var remaining := cfg.capAmount - currentSupply;
      if minted.amount > remaining then Coin(minted.denom, remaining) else minted
  }

  /** The clamp grants the most that was asked for and that keeps the supply under the cap (or under
      where it already is); without a cap it grants everything. */
  lemma ClampIsGreatest(supply: int, minted: Coin, cfg: Config, x: int)
    requires minted.amount > 0
    ensures var granted := Clamp(supply, minted, cfg);
      && granted.denom == minted.denom
      && (0 <= x <= granted.amount
          <==> 0 <= x <= minted.amount
               && (Capped(cfg, minted.denom) ==> supply + x <= Max(supply, cfg.capAmount)))
  {
  }

  // ---------- the ledger ----------

  type Holdings = map<string, nat>

  /** Supplies by denomination, and for each denomination the balance of every account. */
  datatype Ledger = Ledger(supplies: map<string, nat>, holdings: map<string, Holdings>) {
    function Supply(denom: string): nat {
      if denom in supplies then supplies[denom] else 0
    }

    function Holders(denom: string): Holdings {
      if denom in holdings then holdings[denom] else map[]
    }

    function Balance(account: string, denom: string): nat {
      Get(Holders(denom), account)
    }

    function WithSupply(denom: string, amount: nat): Ledger {
      this.(supplies := supplies[denom := amount])
    }

    function WithBalance(account: string, denom: string, amount: nat): Ledger {
      this.(holdings := holdings[denom := Holders(denom)[account := amount]])
    }

    /** Every unit in circulation is on some account. */
    ghost predicate Balanced() {
      forall denom :: Supply(denom) == Total(Holders(denom))
    }
  }

  function Get(m: Holdings, account: string): nat {
    if account in m then m[account] else 0
  }

  ghost function Total(m: Holdings): nat {
    if m == map[] then 0
    else
      var account :| account in m;
      m[account] + Total(m - {account})
  }

  lemma {:induction false} TotalWithout(m: Holdings, account: string)
    requires account in m
    ensures Total(m) == m[account] + Total(m - {account})
    decreases |m|
  {
    var picked :| picked in m && Total(m) == m[picked] + Total(m - {picked});
    if picked != account {
      TotalWithout(m - {picked}, account);
      TotalWithout(m - {account}, picked);
      assert m - {picked} - {account} == m - {account} - {picked};
    }
  }

  lemma TotalUpdate(m: Holdings, account: string, amount: nat)
    ensures Total(m[account := amount]) == Total(m) - Get(m, account) + amount
  {
    TotalWithout(m[account := amount], account);
    assert m[account := amount] - {account} == m - {account};
    if account in m {
      TotalWithout(m, account);
    } else {
      assert m - {account} == m;
    }
  }

  // ---------- bank operations ----------

  /** The bank's MintCoins: new units on the mint module's account. */
  function Issue(l: Ledger, coin: Coin): Ledger
    requires coin.amount > 0
  {
    l.WithSupply(coin.denom, l.Supply(coin.denom) + coin.amount)
     .WithBalance(MINT_ACCOUNT, coin.denom, l.Balance(MINT_ACCOUNT, coin.denom) + coin.amount)
  }

  /** A transfer; refused without enough funds. */
  function Send(l: Ledger, from: string, to: string, denom: string, amount: nat): Ledger {
    if l.Balance(from, denom) < amount then l
    else
      var debited := l.WithBalance(from, denom, l.Balance(from, denom) - amount);
      debited.WithBalance(to, denom, debited.Balance(to, denom) + amount)
  }

  /** What a burn takes out of circulation. */
  function Burnt(l: Ledger, from: string, denom: string, amount: nat): nat {
    if l.Balance(from, denom) < amount || l.Supply(denom) < amount then 0 else amount
  }

  function Burn(l: Ledger, from: string, denom: string, amount: nat): Ledger {
    var burnt := Burnt(l, from, denom, amount);
    if burnt == 0 then l
    else
      l.WithSupply(denom, l.Supply(denom) - burnt)
       .WithBalance(from, denom, l.Balance(from, denom) - burnt)
  }

  // ---------- the minting step ----------

  datatype Minter = Minter(inflation: real, annualProvisions: real)

  /** Where a keeper call can fail: before the minter is stored, in the two bank calls, or nowhere. */
  datatype Fault = BeforeMinterStored | InMintCoins | InAddCollectedFees | NoFault

  /** What a block feeds the step: the recalculated minter, the provision it yields, a fault. */
  datatype BlockInput = BlockInput(minter: Minter, provision: Coin, fault: Fault)

  datatype State = State(minter: Minter, ledger: Ledger)

  datatype StepResult = StepResult(state: State, failed: bool)

  function Granted(cfg: Config, l: Ledger, b: BlockInput): Coin {
    Clamp(l.Supply(cfg.capDenom), b.provision, cfg)
  }

  function MintStep(cfg: Config, st: State, b: BlockInput): StepResult {
    if b.fault.BeforeMinterStored? then StepResult(st, true)
    else
      var coin := Granted(cfg, st.ledger, b);
      if coin.amount <= 0 then StepResult(State(b.minter, st.ledger), false)
      else if b.fault.InMintCoins? then StepResult(State(b.minter, st.ledger), true)
      else
        var l := Issue(st.ledger, coin);
        if b.fault.InAddCollectedFees? then StepResult(State(b.minter, l), true)
        else StepResult(State(b.minter, Send(l, MINT_ACCOUNT, FEE_COLLECTOR, coin.denom, coin.amount)), false)
  }

  /** The units of `denom` that the step adds to the supply. */
  function MintedBy(cfg: Config, l: Ledger, b: BlockInput, denom: string): nat {
    var coin := Granted(cfg, l, b);
    if b.fault.BeforeMinterStored? || b.fault.InMintCoins? || coin.amount <= 0 || coin.denom != denom then 0
    else coin.amount
  }

  /** The keepers' state, updated in place by the mint function. */
  class Chain {
    var minter: Minter
    var ledger: Ledger

    constructor (minter: Minter, ledger: Ledger)
      ensures this.minter == minter && this.ledger == ledger
    {
      this.minter, this.ledger := minter, ledger;
    }

    function Current(): State
      reads this
    {
      State(minter, ledger)
    }

    method MintCoins(coin: Coin)
      requires coin.amount > 0
      modifies `ledger
      ensures ledger == Issue(old(ledger), coin)
    {
      var denom := coin.denom;
      ledger := ledger.(supplies := ledger.supplies[denom := ledger.Supply(denom) + coin.amount]);
      ledger := ledger.WithBalance(MINT_ACCOUNT, denom, ledger.Balance(MINT_ACCOUNT, denom) + coin.amount);
    }

    method AddCollectedFees(coin: Coin)
      requires 0 < coin.amount <= ledger.Balance(MINT_ACCOUNT, coin.denom)
      modifies `ledger
      ensures ledger == Send(old(ledger), MINT_ACCOUNT, FEE_COLLECTOR, coin.denom, coin.amount)
    {
      ledger := ledger.WithBalance(MINT_ACCOUNT, coin.denom, ledger.Balance(MINT_ACCOUNT, coin.denom) - coin.amount);
      ledger := ledger.WithBalance(FEE_COLLECTOR, coin.denom, ledger.Balance(FEE_COLLECTOR, coin.denom) + coin.amount);
    }

    method MintFn(cfg: Config, b: BlockInput) returns (failed: bool)
      modifies this
      ensures StepResult(Current(), failed) == MintStep(cfg, old(Current()), b)
    {
      if b.fault.BeforeMinterStored? {
        return true;
      }
      minter := b.minter;
      var currentSupply := ledger.Supply(cfg.capDenom);
      var mintedCoin := Clamp(currentSupply, b.provision, cfg);
      if mintedCoin.amount > 0 {
        if b.fault.InMintCoins? {
          return true;
        }
        MintCoins(mintedCoin);
        if b.fault.InAddCollectedFees? {
          return true;
        }
        AddCollectedFees(mintedCoin);
      }
      return false;
    }
  }

  /** A step that succeeds moves exactly the granted amount, in one denomination, into the supply
      and onto the fee collector, and changes no other supply and no other balance. */
  lemma MintIsExact(cfg: Config, st: State, b: BlockInput, account: string, denom: string)
    requires !MintStep(cfg, st, b).failed
    ensures var l, after, minted := st.ledger, MintStep(cfg, st, b).state.ledger, MintedBy(cfg, st.ledger, b, denom);
      && after.Supply(denom) == l.Supply(denom) + minted
      && after.Balance(account, denom) == l.Balance(account, denom) + (if account == FEE_COLLECTOR then minted else 0)
    ensures MintStep(cfg, st, b).state.minter == b.minter
  {
  }

  /** What a failing step leaves behind: nothing at all, the stored minter only, or the minter and the
      granted amount on the mint module's account. A step that grants nothing can fail only early. */
  lemma FailureIsExact(cfg: Config, st: State, b: BlockInput, account: string, denom: string)
    requires MintStep(cfg, st, b).failed
    ensures var l, after, minted := st.ledger, MintStep(cfg, st, b).state, MintedBy(cfg, st.ledger, b, denom);
      && (b.fault.BeforeMinterStored? ==> after == st)
      && (!b.fault.BeforeMinterStored? ==> after.minter == b.minter && Granted(cfg, l, b).amount > 0)
      && (!b.fault.InAddCollectedFees? ==> after.ledger == l)
      && after.ledger.Supply(denom) == l.Supply(denom) + minted
      && after.ledger.Balance(account, denom)
         == l.Balance(account, denom) + (if account == MINT_ACCOUNT then minted else 0)
  {
  }

  /** What a provision is worth, from the configuration and the current supply alone: all of it if its
      denomination is not capped, and no more than the room under the cap if it is. */
  function Entitled(cfg: Config, supply: nat, provision: Coin): nat {
    if provision.amount <= 0 then 0
    else if Capped(cfg, provision.denom) then Max(0, Min(provision.amount, cfg.capAmount - supply))
    else provision.amount
  }

  /** The whole step, whatever fails: it fails exactly before the minter is stored, or in a bank call
      that is reached because there is something to mint; it stores the minter unless it fails before;
      and it adds what the provision is worth to the supply of the provision's denomination and to the
      fee collector, or to the mint module's account if the collection fails, and nothing anywhere else. */
  lemma StepIsExact(cfg: Config, st: State, b: BlockInput, account: string, denom: string)
    ensures var l, r := st.ledger, MintStep(cfg, st, b);
      var worth := Entitled(cfg, l.Supply(cfg.capDenom), b.provision);
      var minted := if b.fault.BeforeMinterStored? || b.fault.InMintCoins? || denom != b.provision.denom then 0 else worth;
      var receiver := if b.fault.InAddCollectedFees? then MINT_ACCOUNT else FEE_COLLECTOR;
      && (r.failed <==> b.fault.BeforeMinterStored? || (!b.fault.NoFault? && worth > 0))
      && r.state.minter == (if b.fault.BeforeMinterStored? then st.minter else b.minter)
      && r.state.ledger.Supply(denom) == l.Supply(denom) + minted
      && r.state.ledger.Balance(account, denom) == l.Balance(account, denom) + (if account == receiver then minted else 0)
  {
    var l, r := st.ledger, MintStep(cfg, st, b);
    GrantedIsEntitled(cfg, l, b, denom);
    hide Entitled, Clamp;
    if r.failed {
      FailureIsExact(cfg, st, b, account, denom);
    } else {
      MintIsExact(cfg, st, b, account, denom);
    }
  }

  lemma GrantedIsEntitled(cfg: Config, l: Ledger, b: BlockInput, denom: string)
    ensures var worth := Entitled(cfg, l.Supply(cfg.capDenom), b.provision);
      && (Granted(cfg, l, b).amount > 0 <==> worth > 0)
      && MintedBy(cfg, l, b, denom)
         == if b.fault.BeforeMinterStored? || b.fault.InMintCoins? || denom != b.provision.denom then 0 else worth
  {
  }

  /** A transfer with enough funds moves the amount between the two accounts, and one without nothing. */
  lemma SendIsExact(l: Ledger, from: string, to: string, denom: string, amount: nat, account: string, d: string)
    ensures var moved := if d == denom && l.Balance(from, denom) >= amount then amount else 0;
      && Send(l, from, to, denom, amount).Supply(d) == l.Supply(d)
      && Send(l, from, to, denom, amount).Balance(account, d)
         == l.Balance(account, d) - (if account == from then moved else 0) + (if account == to then moved else 0)
  {
  }

  lemma BurnIsExact(l: Ledger, from: string, denom: string, amount: nat, account: string, d: string)
    ensures var burnt := if d == denom && l.Balance(from, denom) >= amount && l.Supply(denom) >= amount then amount else 0;
      && Burn(l, from, denom, amount).Supply(d) == l.Supply(d) - burnt
      && Burn(l, from, denom, amount).Balance(account, d)
         == l.Balance(account, d) - (if account == from then burnt else 0)
  {
  }

  // ---------- runs ----------

  /** What can happen to the ledger; governance may change the minted denomination between blocks. */
  datatype Event =
    | Block(input: BlockInput)
    | Transfer(from: string, to: string, denom: string, amount: nat)
    | BurnCoins(from: string, denom: string, amount: nat)

  function Step(cfg: Config, st: State, e: Event): State {
    match e
    case Block(b) => MintStep(cfg, st, b).state
    case Transfer(from, to, denom, amount) => st.(ledger := Send(st.ledger, from, to, denom, amount))
    case BurnCoins(from, denom, amount) => st.(ledger := Burn(st.ledger, from, denom, amount))
  }

  function Run(cfg: Config, st: State, es: seq<Event>): State
    decreases es
  {
    if es == [] then st else Run(cfg, Step(cfg, st, es[0]), es[1..])
  }

  function Minted(cfg: Config, st: State, es: seq<Event>, denom: string): nat
    decreases es
  {
    if es == [] then 0
    else
      (if es[0].Block? then MintedBy(cfg, st.ledger, es[0].input, denom) else 0)
      + Minted(cfg, Step(cfg, st, es[0]), es[1..], denom)
  }

  function Burned(cfg: Config, st: State, es: seq<Event>, denom: string): nat
    decreases es
  {
    if es == [] then 0
    else
      (if es[0].BurnCoins? && es[0].denom == denom then Burnt(st.ledger, es[0].from, denom, es[0].amount) else 0)
      + Burned(cfg, Step(cfg, st, es[0]), es[1..], denom)
  }

  /** Supply changes by what is minted and burned, and by nothing else, faults included. */
  lemma {:induction false} SupplyAccounting(cfg: Config, st: State, es: seq<Event>, denom: string)
    ensures Run(cfg, st, es).ledger.Supply(denom) + Burned(cfg, st, es, denom)
         == st.ledger.Supply(denom) + Minted(cfg, st, es, denom)
    decreases es
  {
    if es != [] {
      SupplyAccounting(cfg, Step(cfg, st, es[0]), es[1..], denom);
    }
  }

  /** The hard cap over all runs. */
  lemma {:induction false} SupplyNeverExceedsCap(cfg: Config, st: State, es: seq<Event>)
    requires Capped(cfg, cfg.capDenom)
    ensures Run(cfg, st, es).ledger.Supply(cfg.capDenom) <= Max(st.ledger.Supply(cfg.capDenom), cfg.capAmount)
    decreases es
  {
    if es != [] {
      SupplyNeverExceedsCap(cfg, Step(cfg, st, es[0]), es[1..]);
    }
  }

  /** All that is ever minted fits in the room at the start and the room that burning made. */
  lemma MintedFitsTheRoom(cfg: Config, st: State, es: seq<Event>)
    requires Capped(cfg, cfg.capDenom)
    ensures Minted(cfg, st, es, cfg.capDenom)
         <= Max(0, cfg.capAmount - st.ledger.Supply(cfg.capDenom)) + Burned(cfg, st, es, cfg.capDenom)
  {
    SupplyAccounting(cfg, st, es, cfg.capDenom);
    SupplyNeverExceedsCap(cfg, st, es);
  }

  ghost predicate BoundsEveryRun(cfg: Config) {
    forall st, es :: Run(cfg, st, es).ledger.Supply(cfg.capDenom) <= Max(st.ledger.Supply(cfg.capDenom), cfg.capAmount)
  }

  /** A configured denomination is bounded exactly when the cap amount is positive: a cap of zero or
      less does not forbid minting, it switches the clamp off. */
  lemma CapBindsIff(cfg: Config)
    requires cfg.capDenom != ""
    ensures BoundsEveryRun(cfg) <==> cfg.capAmount > 0
  {
    if cfg.capAmount > 0 {
      forall st, es
        ensures Run(cfg, st, es).ledger.Supply(cfg.capDenom) <= Max(st.ledger.Supply(cfg.capDenom), cfg.capAmount)
      {
        SupplyNeverExceedsCap(cfg, st, es);
      }
    } else {
      var st := State(Minter(0.0, 0.0), Ledger(map[], map[]));
      var b := BlockInput(st.minter, Coin(cfg.capDenom, 1), NoFault);
      MintIsExact(cfg, st, b, FEE_COLLECTOR, cfg.capDenom);
      assert Run(cfg, st, [Block(b)]) == Run(cfg, Step(cfg, st, Block(b)), []);
    }
  }

  /** From one state, no run takes the supply over the cap itself exactly when the cap is positive and
      the supply does not start above it. */
  lemma CapHoldsIff(cfg: Config, st: State)
    requires cfg.capDenom != ""
    ensures (forall es :: Run(cfg, st, es).ledger.Supply(cfg.capDenom) <= cfg.capAmount)
       <==> cfg.capAmount > 0 && st.ledger.Supply(cfg.capDenom) <= cfg.capAmount
  {
    if cfg.capAmount > 0 && st.ledger.Supply(cfg.capDenom) <= cfg.capAmount {
      forall es
        ensures Run(cfg, st, es).ledger.Supply(cfg.capDenom) <= cfg.capAmount
      {
        SupplyNeverExceedsCap(cfg, st, es);
      }
    } else if cfg.capAmount > 0 {
      assert Run(cfg, st, []) == st;
    } else {
      var b := BlockInput(st.minter, Coin(cfg.capDenom, 1), NoFault);
      MintIsExact(cfg, st, b, FEE_COLLECTOR, cfg.capDenom);
      assert Run(cfg, st, [Block(b)]) == Run(cfg, Step(cfg, st, Block(b)), []);
    }
  }

  /** The supply of the public network's genesis, in ubps. */
  const GENESIS_SUPPLY := 75_000_000_000_000

  /** With the configured cap, 100,000,000 BPS are never exceeded exactly from states at or below them;
      from the genesis supply on, no more than 25,000,000 BPS and what was burned are ever minted. */
  lemma PublicNetworkCap(st: State, es: seq<Event>)
    ensures (forall run :: Run(MINT_HARD_CAP, st, run).ledger.Supply("ubps") <= 100_000_000_000_000)
       <==> st.ledger.Supply("ubps") <= 100_000_000_000_000
    ensures st.ledger.Supply("ubps") == GENESIS_SUPPLY
        ==> && Run(MINT_HARD_CAP, st, es).ledger.Supply("ubps") <= 100_000_000_000_000
            && Minted(MINT_HARD_CAP, st, es, "ubps")
               <= 25_000_000_000_000 + Burned(MINT_HARD_CAP, st, es, "ubps")
  {
    hide Run, Minted, Burned;
    CapHoldsIff(MINT_HARD_CAP, st);
    MintedFitsTheRoom(MINT_HARD_CAP, st, es);
  }

  // ---------- conservation ----------

  lemma SetBalanceTotal(l: Ledger, account: string, denom: string, amount: nat, d: string)
    ensures var after := l.WithBalance(account, denom, amount);
      && Total(after.Holders(d))
         == Total(l.Holders(d)) + (if d == denom then amount - l.Balance(account, denom) else 0)
      && after.Supply(d) == l.Supply(d)
  {
    TotalUpdate(l.Holders(denom), account, amount);
  }

  lemma IssueTotal(l: Ledger, coin: Coin, d: string)
    requires coin.amount > 0
    ensures var after := Issue(l, coin);
      after.Supply(d) - Total(after.Holders(d)) == l.Supply(d) - Total(l.Holders(d))
  {
    var l1 := l.WithSupply(coin.denom, l.Supply(coin.denom) + coin.amount);
    SetBalanceTotal(l1, MINT_ACCOUNT, coin.denom, l.Balance(MINT_ACCOUNT, coin.denom) + coin.amount, d);
  }

  lemma SendTotal(l: Ledger, from: string, to: string, denom: string, amount: nat, d: string)
    ensures var after := Send(l, from, to, denom, amount);
      after.Supply(d) == l.Supply(d) && Total(after.Holders(d)) == Total(l.Holders(d))
  {
    if l.Balance(from, denom) >= amount {
      var debited := l.WithBalance(from, denom, l.Balance(from, denom) - amount);
      SetBalanceTotal(l, from, denom, l.Balance(from, denom) - amount, d);
      SetBalanceTotal(debited, to, denom, debited.Balance(to, denom) + amount, d);
    }
  }

  lemma BurnTotal(l: Ledger, from: string, denom: string, amount: nat, d: string)
    ensures var after := Burn(l, from, denom, amount);
      after.Supply(d) - Total(after.Holders(d)) == l.Supply(d) - Total(l.Holders(d))
  {
    var burnt := Burnt(l, from, denom, amount);
    if burnt > 0 {
      var l1 := l.WithSupply(denom, l.Supply(denom) - burnt);
      SetBalanceTotal(l1, from, denom, l.Balance(from, denom) - burnt, d);
    }
  }

  lemma StepKeepsBalanced(cfg: Config, st: State, e: Event)
    requires st.ledger.Balanced()
    ensures Step(cfg, st, e).ledger.Balanced()
  {
    var l := st.ledger;
    forall d
      ensures Step(cfg, st, e).ledger.Supply(d) == Total(Step(cfg, st, e).ledger.Holders(d))
    {
      assert l.Supply(d) == Total(l.Holders(d));
      match e
      case Block(b) =>
        var coin := Granted(cfg, l, b);
        if coin.amount > 0 {
          IssueTotal(l, coin, d);
          SendTotal(Issue(l, coin), MINT_ACCOUNT, FEE_COLLECTOR, coin.denom, coin.amount, d);
        }
      case Transfer(from, to, denom, amount) => SendTotal(l, from, to, denom, amount, d);
      case BurnCoins(from, denom, amount) => BurnTotal(l, from, denom, amount, d);
    }
  }

  /** Supply equals the sum of balances, in every denomination, after every run. */
  lemma {:induction false} RunKeepsBalanced(cfg: Config, st: State, es: seq<Event>)
    requires st.ledger.Balanced()
    ensures Run(cfg, st, es).ledger.Balanced()
    decreases es
  {
    if es != [] {
      StepKeepsBalanced(cfg, st, es[0]);
      RunKeepsBalanced(cfg, Step(cfg, st, es[0]), es[1..]);
    }
  }

  // ---------- block by block against all at once ----------

  function Sum(rs: seq<nat>): nat {
    if rs == [] then 0 else rs[0] + Sum(rs[1..])
  }

  /** Fault-free blocks that provide the given amounts of the capped denomination. */
  function Blocks(cfg: Config, minter: Minter, rs: seq<nat>): seq<Event> {
    if rs == [] then []
    else [CappedBlock(cfg, minter, rs[0])] + Blocks(cfg, minter, rs[1..])
  }

  function CappedBlock(cfg: Config, minter: Minter, r: nat): Event {
    Block(BlockInput(minter, Coin(cfg.capDenom, r), NoFault))
  }

  lemma OneBlock(cfg: Config, st: State, minter: Minter, r: nat)
    requires Capped(cfg, cfg.capDenom)
    ensures var l, after := st.ledger, Step(cfg, st, CappedBlock(cfg, minter, r)).ledger;
      && after.Supply(cfg.capDenom)
         == Max(l.Supply(cfg.capDenom), Min(cfg.capAmount, l.Supply(cfg.capDenom) + r))
      && after.Balance(FEE_COLLECTOR, cfg.capDenom) - after.Supply(cfg.capDenom)
         == l.Balance(FEE_COLLECTOR, cfg.capDenom) - l.Supply(cfg.capDenom)
  {
    MintIsExact(cfg, st, BlockInput(minter, Coin(cfg.capDenom, r), NoFault), FEE_COLLECTOR, cfg.capDenom);
  }

  /** Clamping every block yields what clamping the whole sum once would, and the fee collector
      receives all of it. */
  lemma {:induction false} ClampOnceIsEnough(cfg: Config, st: State, minter: Minter, rs: seq<nat>)
    requires Capped(cfg, cfg.capDenom)
    ensures var l, after := st.ledger, Run(cfg, st, Blocks(cfg, minter, rs)).ledger;
      && after.Supply(cfg.capDenom)
         == Max(l.Supply(cfg.capDenom), Min(cfg.capAmount, l.Supply(cfg.capDenom) + Sum(rs)))
      && after.Balance(FEE_COLLECTOR, cfg.capDenom) - after.Supply(cfg.capDenom)
         == l.Balance(FEE_COLLECTOR, cfg.capDenom) - l.Supply(cfg.capDenom)
    decreases rs
  {
    hide Step, CappedBlock;
    if rs != [] {
      var e := CappedBlock(cfg, minter, rs[0]);
      assert Blocks(cfg, minter, rs) == [e] + Blocks(cfg, minter, rs[1..]);
      OneBlock(cfg, st, minter, rs[0]);
      ClampOnceIsEnough(cfg, Step(cfg, st, e), minter, rs[1..]);
    }
  }

  lemma {:induction false} SumRemove(rs: seq<nat>, k: nat)
    requires k < |rs|
    ensures Sum(rs) == rs[k] + Sum(rs[..k] + rs[k + 1..])
  {
    if k > 0 {
      SumRemove(rs[1..], k - 1);
      var rest := rs[..k] + rs[k + 1..];
      assert rest[0] == rs[0] && rest[1..] == rs[1..][..k - 1] + rs[1..][k..];
    } else {
      assert rs[..0] + rs[1..] == rs[1..];
    }
  }

  lemma {:induction false} SumIsOrderFree(rs: seq<nat>, qs: seq<nat>)
    requires multiset(rs) == multiset(qs)
    ensures Sum(rs) == Sum(qs)
    decreases rs
  {
    if rs == [] {
      EmptyMatch(rs, qs);
    } else {
      var k := MatchFirst(rs, qs);
      SumRemove(qs, k);
      SumIsOrderFree(rs[1..], qs[..k] + qs[k + 1..]);
    }
  }

  /** The order of the provisions does not matter. */
  lemma OrderDoesNotMatter(cfg: Config, st: State, minter: Minter, rs: seq<nat>, qs: seq<nat>)
    requires Capped(cfg, cfg.capDenom) && multiset(rs) == multiset(qs)
    ensures Run(cfg, st, Blocks(cfg, minter, rs)).ledger.Supply(cfg.capDenom)
         == Run(cfg, st, Blocks(cfg, minter, qs)).ledger.Supply(cfg.capDenom)
  {
    hide Run, Blocks;
    SumIsOrderFree(rs, qs);
    ClampOnceIsEnough(cfg, st, minter, rs);
    ClampOnceIsEnough(cfg, st, minter, qs);
  }

  /** At the cap, the supply stands still until something is burned. */
  lemma {:induction false} CapIsAbsorbing(cfg: Config, st: State, es: seq<Event>)
    requires Capped(cfg, cfg.capDenom) && st.ledger.Supply(cfg.capDenom) >= cfg.capAmount
    requires forall e :: e in es ==> e.BurnCoins? ==> e.denom != cfg.capDenom
    ensures Run(cfg, st, es).ledger.Supply(cfg.capDenom) == st.ledger.Supply(cfg.capDenom)
    decreases es
  {
    if es != [] {
      assert es[0] in es;
      CapIsAbsorbing(cfg, Step(cfg, st, es[0]), es[1..]);
    }
  }
}
