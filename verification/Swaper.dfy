/** The executor contract as it runs against the pair contracts. */
module Swaper {
  import opened Evm
  import opened PairModel
  import opened Pair
  import opened Quote
  import opened SwaperModel

  /** `xs` in front of a result. */
  function Prepend(xs: seq<nat>, r: Result<seq<nat>>): Result<seq<nat>> {
    match r
    case Ok(rest) => Ok(xs + rest)
    case Revert(reason) => Revert(reason)
  }

  lemma EmptyPrefix(prefix: seq<nat>, r: Result<seq<nat>>)
    requires prefix == []
    ensures Prepend(prefix, r) == r
  {
    if r.Ok? {
      assert [] + r.value == r.value;
    }
  }

  lemma NothingLeft(prefix: seq<nat>, w: World, amountIn: nat, routes: seq<Route>)
    requires routes == []
    ensures Prepend(prefix, QuoteRoute(w, amountIn, routes)) == Ok(prefix)
  {
    assert prefix + [] == prefix;
  }

  /** One turn of the quoting loop. */
  lemma QuoteTurn(prefix: seq<nat>, w: World, amountIn: nat, routes: seq<Route>)
    requires routes != []
    ensures var all := Prepend(prefix, QuoteRoute(w, amountIn, routes));
      var reserves := Reserves(w, routes[0]);
      if reserves.Revert? then all == Revert(reserves.reason)
      else
        var out := GetAmountOut(amountIn, reserves.value.0, reserves.value.1, routes[0].fee);
        if out.Revert? then all == Revert(out.reason)
        else all == Prepend(prefix + [out.value], QuoteRoute(w, out.value, routes[1..]))
  {
    hide GetAmountOut, Reserves;
    if Reserves(w, routes[0]).Ok? {
      var reserves := Reserves(w, routes[0]).value;
      var quote := GetAmountOut(amountIn, reserves.0, reserves.1, routes[0].fee);
      if quote.Ok? && QuoteRoute(w, quote.value, routes[1..]).Ok? {
        var rest := QuoteRoute(w, quote.value, routes[1..]).value;
        assert prefix + ([quote.value] + rest) == prefix + [quote.value] + rest;
      }
    }
  }

  class Executor {
    const self: Account
    const account: Address
    const weth: Address
    const ledger: TokenLedger
    /** The chain around the contract: which pair answers at which address, and what the account
        lets this contract spend of its WETH. */
    const pairs: map<Address, UniswapV2Pair>
    var allowance: nat

    constructor (self: Account, account: Address, weth: Address, ledger: TokenLedger,
                 pairs: map<Address, UniswapV2Pair>, allowance: nat)
      ensures this.self == self && this.account == account && this.weth == weth
      ensures this.ledger == ledger && this.pairs == pairs && this.allowance == allowance
    {
      this.self, this.account, this.weth := self, account, weth;
      this.ledger, this.pairs, this.allowance := ledger, pairs, allowance;
    }

    /** Every pair answers at its own address and uses the same tokens. */
    ghost predicate Deployed() {
      forall a :: a in pairs ==> pairs[a].self == a && pairs[a].ledger == ledger
    }

    function Settings(timestamp: nat): Config {
      Config(self, account, weth, timestamp)
    }

    function View(): World
      reads this, ledger, pairs.Values
    {
      World(map a | a in pairs :: pairs[a].Storage(), ledger.balances, allowance)
    }

    method GetReserves(route: Route) returns (r: Result<(uint112, uint112)>)
      ensures r == Reserves(View(), route)
    {
      var _ :- Need(route.pair in pairs, NotAContract);
      var p := pairs[route.pair];
      r := Ok(if route.direction then (p.reserve0, p.reserve1) else (p.reserve1, p.reserve0));
    }

    method GetAmountsOut(amount: nat, routes: seq<Route>) returns (r: Result<seq<nat>>)
      ensures r == QuoteRoute(View(), amount, routes)
    {
      hide GetAmountOut, QuoteRoute, Reserves;
      ghost var w := View();
      var amounts := new nat[|routes|];
      var amountIn := amount;
      var i := 0;
      assert routes[0..] == routes;
      EmptyPrefix(amounts[..0], QuoteRoute(w, amount, routes));
      while i < |routes|
        invariant 0 <= i <= |routes|
        invariant View() == w
        invariant QuoteRoute(w, amount, routes) == Prepend(amounts[..i], QuoteRoute(w, amountIn, routes[i..]))
      {
        ghost var before := amounts[..i];
        QuoteTurn(before, w, amountIn, routes[i..]);
        var reserves :- GetReserves(routes[i]);
        var out :- GetAmountOut(amountIn, reserves.0, reserves.1, routes[i].fee);
        amounts[i] := out;
        assert routes[i..][1..] == routes[i + 1..];
        assert amounts[..i + 1] == before + [out];
        amountIn := amounts[i];
        i := i + 1;
      }
      assert amounts[..i] == amounts[..];
      NothingLeft(amounts[..], w, amountIn, routes[i..]);
      return Ok(amounts[..]);
    }

    method TransferFromAccount(to: Address, amount: nat, timestamp: nat) returns (r: Result<()>)
      requires Deployed()
      modifies this, ledger
      ensures match SpendWeth(old(View()), Settings(timestamp), to, amount)
              case Ok(w) => r == Ok(()) && View() == w
              case Revert(reason) => r == Revert(reason)
    {
      hide PowerOfTwo;
      var _ :- ledger.Transfer(weth, account, to, amount);
      if allowance != TWO_256 - 1 {
        var left :- SafeSub(allowance, amount);
        allowance := left;
      }
      return Ok(());
    }

    /** One external call to a pair: only that pair and the balances change. */
    method CallPairSwap(route: Route, amountOut: nat, to: Address, timestamp: nat) returns (r: Result<()>)
      requires Deployed()
      modifies ledger, pairs.Values
      ensures match SwapHop(old(View()), Settings(timestamp), route, amountOut, to)
              case Ok(w) => r == Ok(()) && View() == w
              case Revert(reason) => r == Revert(reason)
    {
      var _ :- Need(route.pair in pairs, NotAContract);
      var p := pairs[route.pair];
      ghost var before := View();
      assert p in pairs.Values;
      if route.direction {
        r := p.SwapBody(Env(self, timestamp, 0), 0, amountOut, to, []);
      } else {
        r := p.SwapBody(Env(self, timestamp, 0), amountOut, 0, to, []);
      }
      if r.Ok? {
        hide SwapCall;
        assert forall a :: a in pairs && a != route.pair ==> pairs[a] != p;
        assert View().pairs == before.pairs[route.pair := p.Storage()];
      }
    }

    /** The loop of `_swap`: each hop pays the next pair, the last one the account. */
    method PerformHops(routes: seq<Route>, amounts: seq<nat>, timestamp: nat) returns (r: Result<()>)
      requires Deployed() && |routes| == |amounts|
      modifies ledger, pairs.Values
      ensures match RunHops(old(View()), Settings(timestamp), routes, amounts)
              case Ok(w) => r == Ok(()) && View() == w
              case Revert(reason) => r == Revert(reason)
    {
      hide SwapHop, PowerOfTwo;
      ghost var cfg, funded := Settings(timestamp), View();
      var i := 0;
      while i < |routes|
        invariant 0 <= i <= |routes| == |amounts|
        invariant RunHops(funded, cfg, routes, amounts) == RunHops(View(), cfg, routes[i..], amounts[i..])
      {
        var route := routes[i];
        var to := account;
        if i != |routes| - 1 {
          to := routes[i + 1].pair;
        }
        assert routes[i..][1..] == routes[i + 1..] && amounts[i..][1..] == amounts[i + 1..];
        assert to == Recipient(cfg, routes[i..]);
        var _ :- CallPairSwap(route, amounts[i], to, timestamp);
        i := i + 1;
      }
      return Ok(());
    }

    /** `_swap`, up to a revert. */
    method Swap(requested: nat, routes: seq<Route>, timestamp: nat) returns (r: Result<()>)
      requires Deployed()
      modifies this, ledger, pairs.Values
      ensures match SwapRoutes(old(View()), Settings(timestamp), requested, routes)
              case Ok(w) => r == Ok(()) && View() == w
              case Revert(reason) => r == Revert(reason)
    {
      hide QuoteRoute, SpendWeth, RunHops, PowerOfTwo;
      var amountIn := requested;
      var balance := Get(ledger.balances, (weth, account));
      if amountIn > balance {
        amountIn := balance;
      }
      var amounts :- GetAmountsOut(amountIn, routes);
      var _ :- Need(routes != [], ArithmeticUnderflow);
      var _ :- Need(amounts[|amounts| - 1] > amountIn, AmountOutLessThanAmountIn);
      var _ :- TransferFromAccount(routes[0].pair, amountIn, timestamp);
      var _ :- PerformHops(routes, amounts, timestamp);
      var _ :- Need(Get(ledger.balances, (weth, account)) > balance, BalanceOutLessThanBalanceIn);
      return Ok(());
    }

    /** A transaction: `_swap`, and if it reverts, every pair, all balances and the approval are again
        what they were. */
    method Run(requested: nat, routes: seq<Route>, timestamp: nat) returns (r: Result<()>)
      requires Deployed()
      modifies this, ledger, pairs.Values
      ensures match SwapRoutes(old(View()), Settings(timestamp), requested, routes)
              case Ok(w) => r == Ok(()) && View() == w
              case Revert(reason) => r == Revert(reason) && View() == old(View())
    {
      hide SwapRoutes;
      var before := View();
      r := Swap(requested, routes, timestamp);
      if r.Revert? {
        Restore(before);
      }
    }

    method Restore(w: World)
      requires Deployed() && w.pairs.Keys == pairs.Keys
      requires forall a :: a in pairs ==>
        w.pairs[a].self == a && w.pairs[a].token0 == pairs[a].token0 && w.pairs[a].token1 == pairs[a].token1
      modifies this, ledger, pairs.Values
      ensures View() == w
    {
      ledger.balances, allowance := w.tokens, w.allowance;
      var rest := pairs.Keys;
      while rest != {}
        invariant rest <= pairs.Keys
        invariant ledger.balances == w.tokens && allowance == w.allowance
        invariant forall a :: a in pairs && a !in rest ==> pairs[a].Storage() == w.pairs[a]
        decreases rest
      {
        var a :| a in rest;
        var p := pairs[a];
        assert p in pairs.Values;
        p.Restore(State(w.pairs[a], w.tokens));
        assert forall b :: b in pairs && b != a ==> pairs[b] != p;
        rest := rest - {a};
      }
    }
  }
}
