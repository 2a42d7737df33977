/** From a path to a trade: the gas threshold, the reversal of the path and the search for an amount
    that pays for the gas. */
module TradeSizing {
  import opened Evm
  import opened Protocol
  import opened Pricing

  // ---- the trader's gas prices ----

  function SwapGas(length: nat): real {
    match length
    case 2 => 210000.0
    case 3 => 250000.0
    case 4 => 320000.0
    case 5 => 360000.0
    case _ => 80000.0 + length as real * 60000.0
  }

  function SwapBaseEthGas(length: nat): real {
    match length
    case 2 => 2100.0
    case 3 => 2400.0
    case 4 => 2600.0
    case 5 => 2800.0
    case _ => 1800.0 + length as real * 200.0
  }

  class Trader {
    var gasPrice: int
    var ethGasPrice: int

    ghost predicate Valid()
      reads this
    {
      gasPrice > 0 && ethGasPrice > 0
    }

    constructor ()
      ensures Valid()
    {
      gasPrice, ethGasPrice := 120000000, 20000000000;
    }

    /** A fetched price replaces the old one only if it is positive. */
    method FetchedGasPrice(suggested: int)
      requires Valid()
      modifies this`gasPrice
      ensures Valid() && gasPrice == if suggested > 0 then suggested else old(gasPrice)
    {
      if suggested > 0 {
        gasPrice := suggested;
      }
    }

    method FetchedEthGasPrice(suggested: int)
      requires Valid()
      modifies this`ethGasPrice
      ensures Valid() && ethGasPrice == if suggested > 0 then suggested else old(ethGasPrice)
    {
      if suggested > 0 {
        ethGasPrice := suggested;
      }
    }

    function MinGasPrice(): real
      reads this
    {
      gasPrice as real / 20.0
    }

    /** The threshold a trade must clear is positive, for paths of any length. */
    function EstimateFee(length: nat): (fee: real)
      requires Valid()
      reads this
      ensures fee > 0.0
    {
      var gas, ethGas := SwapGas(length), SwapBaseEthGas(length);
      MulPositive(gas, MinGasPrice());
      MulPositive(ethGasPrice as real, ethGas);
      gas * MinGasPrice() + ethGasPrice as real * ethGas
    }
  }

  /** What paths of two to six hops must earn, and by how much each further hop raises the threshold. */
  lemma ThresholdGrows(trader: Trader, length: nat)
    requires trader.Valid()
    ensures trader.EstimateFee(2) == 10500.0 * trader.gasPrice as real + 2100.0 * trader.ethGasPrice as real
    ensures trader.EstimateFee(3) == 12500.0 * trader.gasPrice as real + 2400.0 * trader.ethGasPrice as real
    ensures trader.EstimateFee(4) == 16000.0 * trader.gasPrice as real + 2600.0 * trader.ethGasPrice as real
    ensures trader.EstimateFee(5) == 18000.0 * trader.gasPrice as real + 2800.0 * trader.ethGasPrice as real
    ensures trader.EstimateFee(6) == 22000.0 * trader.gasPrice as real + 3000.0 * trader.ethGasPrice as real
    ensures trader.EstimateFee(length) < trader.EstimateFee(length + 1)
    ensures length >= 6 ==>
      trader.EstimateFee(length + 1)
      == trader.EstimateFee(length) + 3000.0 * trader.gasPrice as real + 200.0 * trader.ethGasPrice as real
  {
    var price, ethPrice := trader.MinGasPrice(), trader.ethGasPrice as real;
    var gas, next := SwapGas(length), SwapGas(length + 1);
    var ethGas, ethNext := SwapBaseEthGas(length), SwapBaseEthGas(length + 1);
    assert gas < next && ethGas < ethNext;
    MulPositive(next - gas, price);
    MulPositive(ethPrice, ethNext - ethGas);
  }

  // ---- shrinking the amount ----

  /** The amount after `n` rounds of taking nine tenths. */
  function Shrunk(start: real, n: nat): real {
    if n == 0 then start else Shrunk(start, n - 1) * 0.9
  }

  lemma {:induction false} ShrunkBound(start: real, n: nat)
    requires start >= 0.0
    ensures 0.0 <= Shrunk(start, n)
    ensures Shrunk(start, n) * (9.0 + n as real) <= 9.0 * start
  {
    if n > 0 {
      ShrunkBound(start, n - 1);
      var before, m := Shrunk(start, n - 1), n as real - 1.0;
      assert before * 0.9 * (9.0 + (m + 1.0)) == before * (9.0 + 0.9 * m);
      MulMonotoneReal(9.0 + 0.9 * m, 9.0 + m, before);
    }
  }

  /** Each round takes a tenth off, and so never more than was there at the start. */
  lemma {:induction false} ShrunkStep(start: real, n: nat)
    requires start >= 0.0
    ensures 10.0 * Shrunk(start, n + 1) == 9.0 * Shrunk(start, n)
    ensures 0.0 <= Shrunk(start, n) <= start
  {
    if n > 0 {
      ShrunkStep(start, n - 1);
    }
  }

  /** However small the threshold, some number of rounds gets below it. */
  lemma ShrinksBelow(start: real, threshold: real) returns (n: nat)
    requires start >= 0.0 && threshold > 0.0
    ensures Shrunk(start, n) < threshold
  {
    var ratio := 9.0 * start / threshold;
    DivTimes(9.0 * start, threshold);
    assert ratio >= 0.0 by {
      if start > 0.0 {
        DivPositive(9.0 * start, threshold);
      }
    }
    n := ratio.Floor + 1;
    ShrunkBound(start, n);
    var left, weight := Shrunk(start, n), 9.0 + n as real;
    assert ratio < weight && ratio * threshold == 9.0 * start;
    ScaledBelow(left, weight, ratio, threshold);
  }

  lemma ScaledBelow(left: real, weight: real, ratio: real, threshold: real)
    requires 0.0 <= ratio < weight && threshold > 0.0 && left * weight <= ratio * threshold
    ensures left < threshold
  {
    if threshold <= left {
      MulPositive(weight - ratio, threshold);
      MulMonotoneReal(threshold, left, weight);
    }
  }

  // ---- tryTrade ----

  /** The records of a path of addresses, last address first. */
  function Lookup(pairs: map<Address, PairRecord>, path: seq<Address>): seq<PairRecord>
    requires forall i :: 0 <= i < |path| ==> path[i] in pairs
  {
    seq(|path|, i requires 0 <= i < |path| => pairs[path[|path| - 1 - i]])
  }

  /** A tenth of the WETH reserve of the first pair, if it has one. */
  datatype Start = NoWeth | Amount(amount: real)

  function StartAmount(first: PairRecord, weth: Address): Start {
    if first.token0 == weth then Amount(first.reserve0 as real * 0.1)
    else if first.token1 == weth then Amount(first.reserve1 as real * 0.1)
    else NoWeth
  }

  /** The amount that sizing starts from is a tenth of what the pool of the first hop holds of WETH. */
  lemma StartIsATenth(first: PairRecord, weth: Address)
    ensures StartAmount(first, weth).Amount? <==> first.token0 == weth || first.token1 == weth
    ensures StartAmount(first, weth).Amount? ==>
      10.0 * FEE_BASE * StartAmount(first, weth).amount == HopPool(first, weth).b
  {
  }

  datatype Decision = NoTrade | Trade(amountIn: real, amountOut: real, path: seq<PairRecord>)

  /** The amount after `n` rounds pays for itself and the threshold. */
  predicate PaysOff(weth: Address, path: seq<PairRecord>, start: real, threshold: real, n: nat) {
    AmountsOut(weth, Shrunk(start, n), path) > Shrunk(start, n) + threshold
  }

  /** What the sizing loop finds: the first amount that pays, or that none of the amounts down to the first
      one below the threshold does. */
  ghost predicate Sized(weth: Address, path: seq<PairRecord>, start: real, threshold: real, decision: Decision) {
    match decision
    case Trade(amountIn, amountOut, tradePath) =>
      && tradePath == path
      && exists n: nat :: FirstToPay(weth, path, start, threshold, n)
           && amountIn == Shrunk(start, n) && amountOut == AmountsOut(weth, Shrunk(start, n), path)
    case NoTrade =>
      exists n: nat :: NothingFound(weth, path, start, threshold, n)
  }

  /** The first `n` amounts neither pay nor are below the threshold. */
  ghost predicate Undecided(weth: Address, path: seq<PairRecord>, start: real, threshold: real, n: nat) {
    forall k: nat :: k < n ==> !PaysOff(weth, path, start, threshold, k) && Shrunk(start, k) >= threshold
  }

  ghost predicate FirstToPay(weth: Address, path: seq<PairRecord>, start: real, threshold: real, n: nat) {
    Undecided(weth, path, start, threshold, n) && PaysOff(weth, path, start, threshold, n)
  }

  ghost predicate NothingFound(weth: Address, path: seq<PairRecord>, start: real, threshold: real, n: nat) {
    && Undecided(weth, path, start, threshold, n)
    && !PaysOff(weth, path, start, threshold, n) && Shrunk(start, n) < threshold
  }

  method FindAmount(weth: Address, path: seq<PairRecord>, start: real, threshold: real) returns (decision: Decision)
    requires start >= 0.0 && threshold > 0.0
    ensures Sized(weth, path, start, threshold, decision)
  {
    var amtIn := start;
    ghost var n: nat := 0;
    ghost var limit := ShrinksBelow(start, threshold);
    while true
      invariant amtIn == Shrunk(start, n) && n <= limit
      invariant Undecided(weth, path, start, threshold, n)
      decreases limit - n
    {
      hide AmountsOut, Sized;
      var pAmtOut := GetAmountsOut(weth, amtIn, path);
      if pAmtOut <= amtIn + threshold {
        assert !PaysOff(weth, path, start, threshold, n);
        if amtIn < threshold {
          SizedWithoutTrade(weth, path, start, threshold, n);
          return NoTrade;
        }
        assert n != limit;
        amtIn := amtIn * 0.9;
        n := n + 1;
      } else {
        SizedWithTrade(weth, path, start, threshold, n);
        return Trade(amtIn, pAmtOut, path);
      }
    }
  }

  lemma SizedWithoutTrade(weth: Address, path: seq<PairRecord>, start: real, threshold: real, n: nat)
    requires NothingFound(weth, path, start, threshold, n)
    ensures Sized(weth, path, start, threshold, NoTrade)
  {
    hide PaysOff, Undecided;
  }

  lemma SizedWithTrade(weth: Address, path: seq<PairRecord>, start: real, threshold: real, n: nat)
    requires Undecided(weth, path, start, threshold, n) && PaysOff(weth, path, start, threshold, n)
    ensures Sized(weth, path, start, threshold, Trade(Shrunk(start, n), AmountsOut(weth, Shrunk(start, n), path), path))
  {
    hide PaysOff;
    assert FirstToPay(weth, path, start, threshold, n);
  }

  /** The decision in terms of the amounts: `n` amounts are tried that neither pay nor are below the
      threshold; then comes one that pays, or one below the threshold that does not. */
  lemma DecisionIsFirst(weth: Address, path: seq<PairRecord>, start: real, threshold: real, decision: Decision)
    returns (n: nat)
    requires Sized(weth, path, start, threshold, decision)
    ensures forall k: nat :: k < n ==>
      Shrunk(start, k) >= threshold && AmountsOut(weth, Shrunk(start, k), path) <= Shrunk(start, k) + threshold
    ensures var amount := Shrunk(start, n);
      var out := AmountsOut(weth, amount, path);
      match decision
      case Trade(amountIn, amountOut, _) => amountIn == amount && amountOut == out > amount + threshold
      case NoTrade => out <= amount + threshold && amount < threshold
  {
    hide AmountsOut;
    if decision.Trade? {
      n :| FirstToPay(weth, path, start, threshold, n) && decision.amountIn == Shrunk(start, n)
        && decision.amountOut == AmountsOut(weth, Shrunk(start, n), path);
    } else {
      n :| NothingFound(weth, path, start, threshold, n);
    }
  }

  lemma TradeIsAtMostStart(weth: Address, path: seq<PairRecord>, start: real, threshold: real, decision: Decision)
    requires Sized(weth, path, start, threshold, decision) && decision.Trade? && start >= 0.0
    ensures decision.amountIn <= start
  {
    hide Undecided, AmountsOut;
    var n: nat :| FirstToPay(weth, path, start, threshold, n) && decision.amountIn == Shrunk(start, n);
    ShrunkStep(start, n);
  }

  /** `tryTrade`, from a path as the cycle finder returns it, with the last hop first. */
  method TryTrade(trader: Trader, weth: Address, path: seq<Address>, pairs: map<Address, PairRecord>)
    returns (decision: Decision)
    requires trader.Valid()
    ensures path == [] || (exists i :: 0 <= i < |path| && path[i] !in pairs) ==> decision == NoTrade
    ensures path != [] && (forall i :: 0 <= i < |path| ==> path[i] in pairs) ==>
      var found := Lookup(pairs, path);
      match StartAmount(found[0], weth)
      case NoWeth => decision == NoTrade
      case Amount(start) => Sized(weth, found, start, trader.EstimateFee(|path|) * 1.5, decision)
    ensures decision.Trade? ==>
      && path != [] && path[|path| - 1] in pairs
      && 10.0 * FEE_BASE * decision.amountIn <= HopPool(pairs[path[|path| - 1]], weth).b
  {
    if path == [] {
      return NoTrade;
    }
    var pairPath := [];
    var i := |path| - 1;
    while i >= 0
      invariant -1 <= i < |path|
      invariant forall j :: i < j < |path| ==> path[j] in pairs
      invariant pairPath == seq(|path| - 1 - i, k requires 0 <= k < |path| - 1 - i => pairs[path[|path| - 1 - k]])
    {
      if path[i] !in pairs {
        return NoTrade;
      }
      pairPath := pairPath + [pairs[path[i]]];
      i := i - 1;
    }
    assert pairPath == Lookup(pairs, path);
    var minRecieve := trader.EstimateFee(|pairPath|) * 1.5;
    var pair0 := pairs[path[|path| - 1]];
    var amtIn;
    if pair0.token0 == weth {
      amtIn := pair0.reserve0 as real * 0.1;
    } else if pair0.token1 == weth {
      amtIn := pair0.reserve1 as real * 0.1;
    } else {
      return NoTrade;
    }
    decision := FindAmount(weth, pairPath, amtIn, minRecieve);
    StartIsATenth(pair0, weth);
    if decision.Trade? {
      TradeIsAtMostStart(weth, pairPath, amtIn, minRecieve, decision);
    }
  }

  /** A path of live pairs is traded only if the product of its post-fee spot rates exceeds 1. */
  lemma TradesOnlyAboveOne(weth: Address, path: seq<PairRecord>, start: real, threshold: real, decision: Decision)
    requires AllLive(path) && Chains(weth, path, weth)
    requires start > 0.0 && threshold > 0.0
    requires Sized(weth, path, start, threshold, decision) && decision.Trade?
    ensures PathRate(weth, path) > 1.0
    ensures var pool := Virtual(weth, path);
      && pool.b + pool.c * decision.amountIn > 0.0
      && decision.amountOut == pool.Pays(decision.amountIn) > decision.amountIn + threshold
  {
    hide Virtual, PathRate, PathOut, AllLive;
    var n: nat :| FirstToPay(weth, path, start, threshold, n)
      && decision.amountIn == Shrunk(start, n) && decision.amountOut == AmountsOut(weth, Shrunk(start, n), path);
    ShrunkStaysPositive(start, n);
    ProfitNeedsRateAboveOne(weth, path, Shrunk(start, n));
    PathIsVirtualPool(weth, path, weth, Shrunk(start, n));
  }

  lemma {:induction false} ShrunkStaysPositive(start: real, n: nat)
    requires start > 0.0
    ensures Shrunk(start, n) > 0.0
  {
    if n > 0 {
      ShrunkStaysPositive(start, n - 1);
    }
  }
}
