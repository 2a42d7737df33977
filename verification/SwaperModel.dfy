/** The multi-hop executor, as a function on all pairs and balances it touches, and the surroundings in
    which its routes are promised to work. */
module SwaperModel {
  import opened Evm
  import opened PairModel
  import opened Quote

  /** One hop; `direction` means token0 goes in and token1 comes out. */
  datatype Route = Route(pair: Address, direction: bool, fee: nat)

  /** The deployed pairs, all balances, and what the account still lets the executor spend of WETH. */
  datatype World = World(pairs: map<Address, Pair>, tokens: Tokens, allowance: nat)

  /** The executor's immutables and the block it runs in. */
  datatype Config = Config(self: Account, account: Address, weth: Address, timestamp: nat)

  /** `getReserves`, ordered by the direction of the hop. */
  function Reserves(w: World, route: Route): Result<(uint112, uint112)> {
    if route.pair !in w.pairs then Revert(NotAContract) else
      var p := w.pairs[route.pair];
      Ok(if route.direction then (p.reserve0, p.reserve1) else (p.reserve1, p.reserve0))
  }

  /** `getAmountsOut`: every hop is quoted from the reserves as they are before the first one. */
  function QuoteRoute(w: World, amountIn: nat, routes: seq<Route>): (r: Result<seq<nat>>)
    ensures r.Ok? ==> |r.value| == |routes|
    decreases routes
  {
    if routes == [] then Ok([]) else
      var (reserveIn, reserveOut) :- Reserves(w, routes[0]);
      var out :- GetAmountOut(amountIn, reserveIn, reserveOut, routes[0].fee);
      var rest :- QuoteRoute(w, out, routes[1..]);
      Ok([out] + rest)
  }

  /** One call of a pair's `swap`, without callback. */
  function SwapHop(w: World, cfg: Config, route: Route, amountOut: nat, to: Address): Result<World> {
    if route.pair !in w.pairs then Revert(NotAContract) else
      var amount0Out, amount1Out := if route.direction then 0 else amountOut, if route.direction then amountOut else 0;
      var st :- SwapCall(State(w.pairs[route.pair], w.tokens), Env(cfg.self, cfg.timestamp, 0), amount0Out,
                         amount1Out, to, []);
      Ok(w.(pairs := w.pairs[route.pair := st.pair], tokens := st.tokens))
  }

  /** Where a hop sends its output: to the next pair, or to the account. */
  function Recipient(cfg: Config, routes: seq<Route>): Address
    requires routes != []
  {
    if |routes| > 1 then routes[1].pair else cfg.account
  }

  function RunHops(w: World, cfg: Config, routes: seq<Route>, amounts: seq<nat>): Result<World>
    requires |routes| == |amounts|
    decreases routes
  {
    if routes == [] then Ok(w) else
      var w1 :- SwapHop(w, cfg, routes[0], amounts[0], Recipient(cfg, routes));
      RunHops(w1, cfg, routes[1..], amounts[1..])
  }

  /** WETH's `transferFrom(account, to, amount)` as called by the executor. */
  function SpendWeth(w: World, cfg: Config, to: Address, amount: nat): Result<World> {
    var tokens :- TokenTransfer(w.tokens, cfg.weth, cfg.account, to, amount);
    if w.allowance == TWO_256 - 1 then Ok(w.(tokens := tokens)) else
      var left :- SafeSub(w.allowance, amount);
      Ok(w.(tokens := tokens, allowance := left))
  }

  function WethOf(w: World, cfg: Config): nat {
    Get(w.tokens, (cfg.weth, cfg.account))
  }

  /** `_swap`. */
  function SwapRoutes(w: World, cfg: Config, requested: nat, routes: seq<Route>): Result<World> {
    var balance := WethOf(w, cfg);
    var amountIn := Min(requested, balance);
    var amounts :- QuoteRoute(w, amountIn, routes);
    var _ :- Need(routes != [], ArithmeticUnderflow);
    var _ :- Need(amounts[|amounts| - 1] > amountIn, AmountOutLessThanAmountIn);
    var funded :- SpendWeth(w, cfg, routes[0].pair, amountIn);
    var final :- RunHops(funded, cfg, routes, amounts);
    var _ :- Need(WethOf(final, cfg) > balance, BalanceOutLessThanBalanceIn);
    Ok(final)
  }

  // ---- the surroundings in which a route is promised to work ----

  function TokenIn(p: Pair, direction: bool): Address { if direction then p.token0 else p.token1 }
  function TokenOut(p: Pair, direction: bool): Address { if direction then p.token1 else p.token0 }
  function ReserveIn(p: Pair, direction: bool): uint112 { if direction then p.reserve0 else p.reserve1 }
  function ReserveOut(p: Pair, direction: bool): uint112 { if direction then p.reserve1 else p.reserve0 }

  function BalanceIn(w: World, route: Route): nat
    requires route.pair in w.pairs
  {
    Get(w.tokens, (TokenIn(w.pairs[route.pair], route.direction), route.pair))
  }

  function BalanceOut(w: World, route: Route): nat
    requires route.pair in w.pairs
  {
    Get(w.tokens, (TokenOut(w.pairs[route.pair], route.direction), route.pair))
  }

  ghost predicate NotAToken(a: Address, p: Pair) {
    a != p.token0 && a != p.token1
  }

  /** A deployed, idle pair whose balances cover its reserves, and a fee of at least its own. */
  ghost predicate HopSound(w: World, route: Route) {
    && route.pair in w.pairs
    && 30 <= route.fee <= FEE_BASE
    && var p := w.pairs[route.pair];
    && p.self == route.pair && p.unlocked && p.token0 != p.token1
    && ReserveIn(p, route.direction) <= BalanceIn(w, route)
    && ReserveOut(p, route.direction) <= BalanceOut(w, route)
  }

  /** Pairwise distinct sound hops whose tokens chain up and end in WETH. */
  ghost predicate RouteSound(w: World, cfg: Config, routes: seq<Route>) {
    && routes != []
    && (forall i :: 0 <= i < |routes| ==> HopSound(w, routes[i]))
    && (forall i, j :: 0 <= i < j < |routes| ==> routes[i].pair != routes[j].pair)
    && (forall i :: 0 <= i < |routes| ==>
          routes[i].pair != cfg.account && NotAToken(cfg.account, w.pairs[routes[i].pair]))
    && (forall i, j :: 0 <= i < |routes| && 0 <= j < |routes| ==> NotAToken(routes[i].pair, w.pairs[routes[j].pair]))
    && (forall i, j :: 0 <= i && j == i + 1 < |routes| ==>
          TokenOut(w.pairs[routes[i].pair], routes[i].direction)
              == TokenIn(w.pairs[routes[j].pair], routes[j].direction))
    && var last := routes[|routes| - 1];
    && TokenOut(w.pairs[last.pair], last.direction) == cfg.weth
  }

  /** What can still stop a quoted route: an empty reserve on the paying-in side, or a balance that
      leaves 112 bits. Both can be read off before anything is sent. */
  ghost predicate Fits(w: World, routes: seq<Route>, amounts: seq<nat>, amountIn: nat)
    requires |routes| == |amounts|
    decreases routes
  {
    routes == [] || (HopFits(w, routes[0], amountIn, amounts[0]) && Fits(w, routes[1..], amounts[1..], amounts[0]))
  }

  ghost predicate HopFits(w: World, route: Route, amountIn: nat, amountOut: nat) {
    && route.pair in w.pairs
    && ReserveIn(w.pairs[route.pair], route.direction) > 0
    && BalanceIn(w, route) + amountIn < TWO_112
    && BalanceOut(w, route) - amountOut < TWO_112
  }
}
