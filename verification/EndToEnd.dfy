/** From the monitor to the chain: what the cycle finder returns is a route that the executor's
    theorem covers. */
module EndToEnd {
  import opened Evm
  import opened Protocol
  import opened Pricing
  import opened SwapGraph
  import opened TradeSizing
  import opened Arbitrage
  import opened SwaperModel
  import opened RouteCodec
  import opened SwaperTheorem
  import opened QuoteRefinement
  import Quote

  /** The pair on chain is the one the record describes, idle and covered, and its fee is at least the
      one it charges. */
  ghost predicate Deployed(w: World, p: PairRecord) {
    && p.address in w.pairs && p.fee >= 30
    && var q := w.pairs[p.address];
    && q.self == p.address && q.unlocked && q.token0 == p.token0 && q.token1 == p.token1
    && q.reserve0 <= Get(w.tokens, (q.token0, q.self)) && q.reserve1 <= Get(w.tokens, (q.token1, q.self))
  }

  /** Pairs, tokens and the account are different contracts. */
  ghost predicate SeparateAddresses(cfg: Config, path: seq<PairRecord>) {
    && (forall i :: 0 <= i < |path| ==>
          path[i].address != cfg.account && cfg.account != path[i].token0 && cfg.account != path[i].token1)
    && (forall i, j :: 0 <= i < |path| && 0 <= j < |path| ==>
          path[i].address != path[j].token0 && path[i].address != path[j].token1)
  }

  ghost predicate AllDeployed(w: World, path: seq<PairRecord>) {
    forall i :: 0 <= i < |path| ==> Deployed(w, path[i])
  }

  ghost predicate DistinctPairs(path: seq<PairRecord>) {
    forall i, j :: 0 <= i < j < |path| ==> path[i].address != path[j].address
  }

  lemma {:induction false} RoutesAreAsLong(from: Address, path: seq<PairRecord>)
    requires forall i :: 0 <= i < |path| ==> 0 <= path[i].fee
    ensures |RoutesOf(from, path)| == |path|
    decreases path
  {
    if path != [] {
      RoutesAreAsLong(if path[0].token0 == from then path[0].token1 else path[0].token0, path[1..]);
    }
  }

  /** One hop of the packed route, in terms of the deployed pair. */
  lemma HopIsSound(w: World, from: Address, path: seq<PairRecord>, to: Address, i: nat)
    requires Chains(from, path, to) && AllLive(path) && AllDeployed(w, path) && i < |path|
    ensures |RoutesOf(from, path)| == |path|
    ensures var routes := RoutesOf(from, path);
      var hop := routes[i];
      && hop.pair == path[i].address && HopSound(w, hop)
      && TokenIn(w.pairs[hop.pair], hop.direction) == (if hop.direction then path[i].token0 else path[i].token1)
      && TokenOut(w.pairs[hop.pair], hop.direction) == (if hop.direction then path[i].token1 else path[i].token0)
  {
    hide Chains, RoutesOf;
    assert Live(path[i]) && Deployed(w, path[i]);
    assert forall k :: 0 <= k < |path| ==> Live(path[k]);
    DirectionsChain(from, path, to, i);
  }

  /** A chaining path of distinct deployed pairs packs into a sound route. */
  lemma ChainIsSoundRoute(w: World, cfg: Config, path: seq<PairRecord>)
    requires path != [] && Chains(cfg.weth, path, cfg.weth) && AllLive(path)
    requires AllDeployed(w, path) && DistinctPairs(path) && SeparateAddresses(cfg, path)
    ensures var routes := RoutesOf(cfg.weth, path);
      && RouteSound(w, cfg, routes) && routes[0].pair in w.pairs
      && TokenIn(w.pairs[routes[0].pair], routes[0].direction) == cfg.weth
  {
    hide Chains, RoutesOf, HopSound, PowerOfTwo;
    assert forall k :: 0 <= k < |path| ==> Live(path[k]) && Deployed(w, path[k]);
    RoutesAreAsLong(cfg.weth, path);
    var routes := RoutesOf(cfg.weth, path);
    forall i: nat | i < |path|
      ensures routes[i].pair == path[i].address && HopSound(w, routes[i])
      ensures routes[i].pair != cfg.account && NotAToken(cfg.account, w.pairs[routes[i].pair])
    {
      HopIsSound(w, cfg.weth, path, cfg.weth, i);
    }
    forall i, j | 0 <= i && j == i + 1 < |path|
      ensures TokenOut(w.pairs[routes[i].pair], routes[i].direction)
          == TokenIn(w.pairs[routes[j].pair], routes[j].direction)
    {
      HopIsSound(w, cfg.weth, path, cfg.weth, i);
      HopIsSound(w, cfg.weth, path, cfg.weth, j);
      DirectionsChain(cfg.weth, path, cfg.weth, i);
    }
    HopIsSound(w, cfg.weth, path, cfg.weth, 0);
    HopIsSound(w, cfg.weth, path, cfg.weth, |path| - 1);
    DirectionsChain(cfg.weth, path, cfg.weth, 0);
    DirectionsChain(cfg.weth, path, cfg.weth, |path| - 1);
  }

  /** What `findArbitrage` finds, reversed and packed, is a route of distinct pairs that chains from
      WETH to WETH on chain: the hypothesis of the executor's promise. */
  lemma FoundRouteIsSound(pairs: map<Address, PairRecord>, cycle: seq<SwapEdge>, log: real -> real, w: World,
                          cfg: Config)
    requires StoreSound(pairs) && IsArbitrage(pairs, cfg.weth, cycle, log)
    requires forall i :: 0 <= i < |cycle| ==> PairsOf(cycle)[i] in pairs
    requires AllDeployed(w, Lookup(pairs, PairsOf(cycle)))
    requires SeparateAddresses(cfg, Lookup(pairs, PairsOf(cycle)))
    ensures var path := Lookup(pairs, PairsOf(cycle));
      && path != [] && AllLive(path)
      && (forall i :: 0 <= i < |path| ==> 0 <= path[i].fee)
      && var routes := RoutesOf(cfg.weth, path);
      && RouteSound(w, cfg, routes) && routes[0].pair in w.pairs
      && TokenIn(w.pairs[routes[0].pair], routes[0].direction) == cfg.weth
  {
    hide IsArbitrage, RoutesOf, RouteSound;
    var path := Lookup(pairs, PairsOf(cycle));
    FoundPathPays(pairs, cfg.weth, cycle, log);
    NoPairTwice(pairs, cfg.weth, cycle, log);
    forall i, j | 0 <= i < j < |path|
      ensures path[i].address != path[j].address
    {
      var a, b := |cycle| - 1 - j, |cycle| - 1 - i;
      assert cycle[a].pair != cycle[b].pair;
    }
    assert forall i :: 0 <= i < |path| ==> Live(path[i]);
    ChainIsSoundRoute(w, cfg, path);
  }

  // ---- the trade ----

  /** The pairs on chain still have the reserves of the records. */
  ghost predicate UpToDate(w: World, path: seq<PairRecord>) {
    forall i :: 0 <= i < |path| ==> Agrees(w, path[i])
  }

  lemma {:induction false} RoutesMirror(w: World, from: Address, path: seq<PairRecord>)
    requires UpToDate(w, path) && forall i :: 0 <= i < |path| ==> 0 <= path[i].fee
    ensures Mirrors(w, RoutesOf(from, path), from, path)
    decreases path
  {
    hide Agrees;
    RoutesAreAsLong(from, path);
    if path != [] {
      assert Agrees(w, path[0]);
      assert forall i :: 0 <= i < |path[1..]| ==> path[1..][i] == path[i + 1];
      RoutesMirror(w, Exit(path[0], from), path[1..]);
      assert RoutesOf(from, path)[1..] == RoutesOf(Exit(path[0], from), path[1..]);
    }
  }

  /** What the trader sends for a path, as the executor finds it in memory. */
  function Sent(amount: nat, routes: seq<Route>, behind: seq<byte>): seq<byte> {
    Memory(FromHex(HexPadded(amount, 20) + RouteText(routes)), behind)
  }

  lemma SentIsReceived(amount: nat, from: Address, path: seq<PairRecord>, behind: seq<byte>)
    requires amount < 0x8000_0000_0000_0000 && |path| <= 255 && AllLive(path)
    requires forall i :: 0 <= i < |path| ==> 0 <= path[i].fee
    ensures var routes := RoutesOf(from, path);
      var mem := Sent(amount, routes, behind);
      && AmountSent(mem) == amount && RouteCount(mem) == |routes| == |path|
      && (forall i :: 0 <= i < |routes| ==> RouteAt(mem, i) == routes[i])
  {
    hide RoutesOf, AmountSent, RouteCount, RouteAt, Memory, FromHex, HexPadded, RouteText;
    RoutesAreAsLong(from, path);
    var routes := RoutesOf(from, path);
    forall i: nat | i < |path|
      ensures routes[i].fee < 0x1_0000
    {
      assert Live(path[i]);
      FeeIsCopied(from, path, i);
    }
    DecodeUndoesEncode(amount, routes, behind);
  }

  lemma {:induction false} FeeIsCopied(from: Address, path: seq<PairRecord>, i: nat)
    requires i < |path| && forall k :: 0 <= k < |path| ==> 0 <= path[k].fee
    ensures |RoutesOf(from, path)| == |path| && RoutesOf(from, path)[i].fee == path[i].fee
    ensures RoutesOf(from, path)[i].pair == path[i].address
    decreases path
  {
    RoutesAreAsLong(from, path);
    if i > 0 {
      FeeIsCopied(Exit(path[0], from), path[1..], i - 1);
    }
  }

  lemma LivePathQuotes(w: World, amount: nat, from: Address, path: seq<PairRecord>)
    requires amount < TWO_112 && AllLive(path) && UpToDate(w, path)
    requires forall i :: 0 <= i < |path| ==> 0 <= path[i].fee
    ensures QuoteRoute(w, amount, RoutesOf(from, path)).Ok?
  {
    hide RoutesOf, QuoteRoute;
    RoutesAreAsLong(from, path);
    var routes := RoutesOf(from, path);
    forall i: nat | i < |path|
      ensures routes[i].pair in w.pairs && routes[i].fee <= Quote.FEE_BASE
      ensures w.pairs[routes[i].pair].reserve0 > 0 && w.pairs[routes[i].pair].reserve1 > 0
    {
      assert Live(path[i]) && Agrees(w, path[i]);
      FeeIsCopied(from, path, i);
    }
    RouteQuotes(w, amount, routes);
  }

  /** A path that the monitor found, sent with a whole amount that the account holds and has
      approved, to pairs whose reserves have not moved meanwhile: the executor decodes the path that
      was sent; its quote is at most what the monitor computed and falls short by less than the
      accumulated rounding; a quote that does not exceed the stake is refused; and any other goes
      through, and the account has gained exactly what was quoted, unless a balance leaves 112 bits. */
  lemma FoundTradeOnChain(pairs: map<Address, PairRecord>, cycle: seq<SwapEdge>, log: real -> real, w: World,
                          cfg: Config, amount: nat, exact: real, behind: seq<byte>)
    requires StoreSound(pairs) && IsArbitrage(pairs, cfg.weth, cycle, log) && |cycle| <= 10
    requires forall i :: 0 <= i < |cycle| ==> PairsOf(cycle)[i] in pairs
    requires var path := Lookup(pairs, PairsOf(cycle));
      AllDeployed(w, path) && SeparateAddresses(cfg, path) && UpToDate(w, path)
    requires amount < 0x8000_0000_0000_0000 && amount <= WethOf(w, cfg) && amount <= w.allowance
    requires amount as real <= exact
    ensures var path := Lookup(pairs, PairsOf(cycle));
      && path != [] && AllLive(path) && (forall i :: 0 <= i < |path| ==> 0 <= path[i].fee)
      && var routes := RoutesOf(cfg.weth, path);
      && var mem := Sent(amount, routes, behind);
      && AmountSent(mem) == amount && RouteCount(mem) == |routes|
      && (forall i :: 0 <= i < |routes| ==> RouteAt(mem, i) == routes[i])
      && QuoteRoute(w, amount, routes).Ok?
      && var amounts, result := QuoteRoute(w, amount, routes).value, SwapRoutes(w, cfg, amount, routes);
      && amounts != []
      && var last := amounts[|amounts| - 1];
      && last as real <= AmountsOut(cfg.weth, exact, path) < last as real
           + GapBound(exact - amount as real, cfg.weth, path)
      && (last <= amount ==> result == Revert(AmountOutLessThanAmountIn))
      && (last > amount ==>
            && (result.Ok? <==> Fits(w, routes, amounts, amount))
            && (result.Ok? ==> WethOf(result.value, cfg) == WethOf(w, cfg) - amount + last))
  {
    hide StoreSound, IsArbitrage, AllDeployed, SeparateAddresses, UpToDate, RoutesOf, RouteSound, QuoteRoute,
         SwapRoutes, Fits, Sent, AmountSent, RouteCount, RouteAt, PathOut, GapBound, WethOf, Chains, Mirrors;
    var path := Lookup(pairs, PairsOf(cycle));
    FoundPathPays(pairs, cfg.weth, cycle, log);
    FoundRouteIsSound(pairs, cycle, log, w, cfg);
    var routes := RoutesOf(cfg.weth, path);
    SentIsReceived(amount, cfg.weth, path, behind);
    LivePathQuotes(w, amount, cfg.weth, path);
    RoutesMirror(w, cfg.weth, path);
    QuoteRefinesPricing(w, routes, cfg.weth, path, cfg.weth, amount, exact);
    QuotedRouteGoesThrough(w, cfg, amount, routes);
  }

  /** The first pair of a path that the monitor found always holds WETH to start from. */
  lemma FoundPathStarts(pairs: map<Address, PairRecord>, weth: Address, cycle: seq<SwapEdge>, log: real -> real)
    requires StoreSound(pairs) && IsArbitrage(pairs, weth, cycle, log)
    requires forall i :: 0 <= i < |cycle| ==> PairsOf(cycle)[i] in pairs
    ensures var path := Lookup(pairs, PairsOf(cycle));
      path != [] && StartAmount(path[0], weth).Amount? && StartAmount(path[0], weth).amount > 0.0
  {
    hide IsArbitrage, StoreSound, PathRate;
    FoundPathPays(pairs, weth, cycle, log);
    assert Live(Lookup(pairs, PairsOf(cycle))[0]);
  }

  /** A trade that the monitor decided on, sent as a whole amount, is never refused by the executor's
      comparison as long as the accumulated rounding stays within the threshold: the quote exceeds the
      stake, and the trade goes through unless a balance leaves 112 bits. */
  lemma DecidedTradeOnChain(pairs: map<Address, PairRecord>, cycle: seq<SwapEdge>, log: real -> real, w: World,
                            cfg: Config, path: seq<PairRecord>, threshold: real, decision: Decision, amount: nat)
    requires StoreSound(pairs) && IsArbitrage(pairs, cfg.weth, cycle, log) && |cycle| <= 10
    requires forall i :: 0 <= i < |cycle| ==> PairsOf(cycle)[i] in pairs
    requires path == Lookup(pairs, PairsOf(cycle)) && path != [] && AllLive(path)
    requires AllDeployed(w, path) && SeparateAddresses(cfg, path) && UpToDate(w, path)
    requires amount < 0x8000_0000_0000_0000 && amount <= WethOf(w, cfg) && amount <= w.allowance
    requires StartAmount(path[0], cfg.weth).Amount? && threshold > 0.0
    requires Sized(cfg.weth, path, StartAmount(path[0], cfg.weth).amount, threshold, decision) && decision.Trade?
    requires amount as real <= decision.amountIn < amount as real + 1.0
    requires GapBound(decision.amountIn - amount as real, cfg.weth, path) <= threshold
    ensures forall i :: 0 <= i < |path| ==> 0 <= path[i].fee
    ensures var routes := RoutesOf(cfg.weth, path);
      && QuoteRoute(w, amount, routes).Ok?
      && var amounts, result := QuoteRoute(w, amount, routes).value, SwapRoutes(w, cfg, amount, routes);
      && amounts != []
      && var last := amounts[|amounts| - 1];
      && last > amount
      && (result.Ok? <==> Fits(w, routes, amounts, amount))
      && (result.Ok? ==> WethOf(result.value, cfg) == WethOf(w, cfg) - amount + last)
  {
    hide StoreSound, IsArbitrage, AllDeployed, SeparateAddresses, UpToDate, RoutesOf, QuoteRoute, SwapRoutes, Fits,
         Sent, AmountSent, RouteCount, RouteAt, PathOut, GapBound, WethOf, Chains, Sized, PathRate, Virtual, PowerOfTwo;
    var start := StartAmount(path[0], cfg.weth).amount;
    FoundPathPays(pairs, cfg.weth, cycle, log);
    FoundPathStarts(pairs, cfg.weth, cycle, log);
    TradesOnlyAboveOne(cfg.weth, path, start, threshold, decision);
    TradeIsPriced(cfg.weth, path, start, threshold, decision);
    FoundTradeOnChain(pairs, cycle, log, w, cfg, amount, decision.amountIn, []);
  }

  lemma TradeIsPriced(weth: Address, path: seq<PairRecord>, start: real, threshold: real, decision: Decision)
    requires Sized(weth, path, start, threshold, decision) && decision.Trade?
    ensures decision.amountOut == AmountsOut(weth, decision.amountIn, path) > decision.amountIn + threshold
  {
  }
}
