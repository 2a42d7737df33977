/** For routes of any length: once the quote passes, no pair refuses its hop. */
module SwaperTheorem {
  import opened Arithmetic
  import opened Evm
  import opened PairModel
  import opened PairInvariants
  import opened Quote
  import opened SwaperModel

  // ---- one hop ----

  /** A pair that was sent `amountIn` pays the quoted amount exactly when its own reserve of the
      incoming token is not empty and both balances fit 112 bits. */
  lemma HopOutcome(st: State, env: Env, direction: bool, amountIn: nat, out: nat, to: Address, fee: nat)
    requires st.pair.unlocked && st.pair.token0 != st.pair.token1
    requires to != st.pair.token0 && to != st.pair.token1 && to != st.pair.self
    requires 30 <= fee && amountIn > 0 && out > 0
    requires GetAmountOut(amountIn, ReserveIn(st.pair, direction), ReserveOut(st.pair, direction), fee) == Ok(out)
    requires var p := st.pair;
      && ReserveIn(p, direction) + amountIn <= Get(st.tokens, (TokenIn(p, direction), p.self))
      && ReserveOut(p, direction) <= Get(st.tokens, (TokenOut(p, direction), p.self))
    ensures var p := st.pair;
      var result := SwapCall(st, env, if direction then 0 else out, if direction then out else 0, to, []);
      && (result.Ok? <==>
            && ReserveIn(p, direction) > 0
            && Get(st.tokens, (TokenIn(p, direction), p.self)) < TWO_112
            && Get(st.tokens, (TokenOut(p, direction), p.self)) - out < TWO_112)
      && (result.Ok? ==>
            && out <= Get(st.tokens, (TokenOut(p, direction), p.self))
            && result.value.tokens
               == Move(st.tokens, (TokenOut(p, direction), p.self), (TokenOut(p, direction), to), out))
  {
    hide CheckK, GetAmountOut, IsQuote, LeavesProduct, KKept;
    var p := st.pair;
    var reserveIn, reserveOut := ReserveIn(p, direction), ReserveOut(p, direction);
    QuoteIsFloor(amountIn, reserveIn, reserveOut, fee);
    if reserveIn > 0 {
      PositiveQuoteNeedsReserve(amountIn, reserveIn, reserveOut, fee, out);
      QuoteBelowReserve(amountIn, reserveIn, reserveOut, fee, out);
      var balanceIn := Get(st.tokens, (TokenIn(p, direction), p.self));
      var balanceOut := Get(st.tokens, (TokenOut(p, direction), p.self)) - out;
      var tokens := Move(st.tokens, (TokenOut(p, direction), p.self), (TokenOut(p, direction), to), out);
      if balanceIn < TWO_112 && balanceOut < TWO_112 {
        QuoteLeavesProduct(amountIn, reserveIn, reserveOut, fee, out);
        LeftoverAccepted(amountIn, balanceIn, balanceOut, reserveIn, reserveOut, out);
        CheckKMeaning(balanceIn, balanceOut, reserveIn, reserveOut, 0, out);
        CheckKSymmetric(balanceIn, balanceOut, reserveIn, reserveOut, 0, out);
      }
    }
  }

  lemma PositiveQuoteNeedsReserve(amountIn: nat, reserveIn: nat, reserveOut: nat, fee: nat, out: nat)
    requires IsQuote(amountIn, reserveIn, reserveOut, fee, out) && out > 0
    ensures reserveOut > 0
  {
    var weighted := amountIn * (FEE_BASE - fee);
    MulMonotone(1, out, reserveIn * FEE_BASE + weighted);
  }

  /** The quote at the pair's own fee is exact: a pair that was sent `amountIn` and holds nothing
      beyond its reserves pays any amount up to the quote and no amount above it. */
  lemma PaysExactlyUpToQuote(st: State, env: Env, direction: bool, amountIn: nat, amountOut: nat, to: Address)
    requires st.pair.unlocked && st.pair.token0 != st.pair.token1
    requires to != st.pair.token0 && to != st.pair.token1 && to != st.pair.self
    requires amountIn > 0 && amountOut > 0
    requires var p := st.pair;
      && 0 < ReserveIn(p, direction) && 0 < ReserveOut(p, direction)
      && Get(st.tokens, (TokenIn(p, direction), p.self)) == ReserveIn(p, direction) + amountIn < TWO_112
      && Get(st.tokens, (TokenOut(p, direction), p.self)) == ReserveOut(p, direction)
      && GetAmountOut(amountIn, ReserveIn(p, direction), ReserveOut(p, direction), 30).Ok?
    ensures SwapCall(st, env, if direction then 0 else amountOut, if direction then amountOut else 0, to, []).Ok?
       <==> amountOut <= GetAmountOut(amountIn, ReserveIn(st.pair, direction), ReserveOut(st.pair, direction), 30).value
  {
    hide CheckK, GetAmountOut, IsQuote;
    var p := st.pair;
    var reserveIn, reserveOut := ReserveIn(p, direction), ReserveOut(p, direction);
    var out := GetAmountOut(amountIn, reserveIn, reserveOut, 30).value;
    QuoteIsFloor(amountIn, reserveIn, reserveOut, 30);
    QuoteBelowReserve(amountIn, reserveIn, reserveOut, 30, out);
    if amountOut < reserveOut {
      AcceptedIffQuoted(amountIn, reserveIn, reserveOut, out, amountOut);
      CheckKSymmetric(reserveIn + amountIn, reserveOut - amountOut, reserveIn, reserveOut, 0, amountOut);
    }
  }

  // ---- the quote of a route ----

  /** An amount of zero stays zero on every later hop. */
  lemma {:induction false} QuotePositive(w: World, amountIn: nat, routes: seq<Route>)
    requires routes != [] && QuoteRoute(w, amountIn, routes).Ok?
    requires QuoteRoute(w, amountIn, routes).value[|routes| - 1] > 0
    ensures amountIn > 0 && QuoteRoute(w, amountIn, routes).value[0] > 0
    decreases routes
  {
    hide GetAmountOut, PowerOfTwo;
    var (reserveIn, reserveOut) := Reserves(w, routes[0]).value;
    var out := GetAmountOut(amountIn, reserveIn, reserveOut, routes[0].fee).value;
    if |routes| > 1 {
      QuotePositive(w, out, routes[1..]);
    }
    QuoteIsFloor(amountIn, reserveIn, reserveOut, routes[0].fee);
    var weighted := amountIn * (FEE_BASE - routes[0].fee);
    MulMonotone(1, out, reserveIn * FEE_BASE + weighted);
  }

  /** Filled reserves of 112 bits never make the quote of a route revert. */
  lemma {:induction false} RouteQuotes(w: World, amountIn: nat, routes: seq<Route>)
    requires amountIn < TWO_112
    requires forall i :: 0 <= i < |routes| ==>
      && routes[i].pair in w.pairs && routes[i].fee <= FEE_BASE
      && w.pairs[routes[i].pair].reserve0 > 0 && w.pairs[routes[i].pair].reserve1 > 0
    ensures QuoteRoute(w, amountIn, routes).Ok?
    decreases routes
  {
    hide GetAmountOut, IsQuote;
    if routes != [] {
      var (reserveIn, reserveOut) := Reserves(w, routes[0]).value;
      QuoteFits(amountIn, reserveIn, reserveOut, routes[0].fee);
      QuoteIsFloor(amountIn, reserveIn, reserveOut, routes[0].fee);
      var out := GetAmountOut(amountIn, reserveIn, reserveOut, routes[0].fee).value;
      QuoteBelowReserve(amountIn, reserveIn, reserveOut, routes[0].fee, out);
      RouteQuotes(w, out, routes[1..]);
    }
  }

  // ---- the whole route ----

  /** `c` is `w` after `funded` arrived at the first of the remaining pairs. */
  ghost predicate Carried(w: World, c: World, routes: seq<Route>, funded: nat)
    requires forall i :: 0 <= i < |routes| ==> routes[i].pair in w.pairs
  {
    forall i :: 0 <= i < |routes| ==>
      && routes[i].pair in c.pairs && c.pairs[routes[i].pair] == w.pairs[routes[i].pair]
      && BalanceIn(c, routes[i]) == BalanceIn(w, routes[i]) + (if i == 0 then funded else 0)
      && BalanceOut(c, routes[i]) == BalanceOut(w, routes[i])
  }

  lemma RouteIsDeployed(w: World, cfg: Config, routes: seq<Route>)
    requires RouteSound(w, cfg, routes)
    ensures routes != [] && forall i :: 0 <= i < |routes| ==> routes[i].pair in w.pairs
  {
    assert forall i :: 0 <= i < |routes| ==> HopSound(w, routes[i]);
  }

  lemma RestIsSound(w: World, cfg: Config, routes: seq<Route>)
    requires RouteSound(w, cfg, routes) && |routes| > 1
    ensures RouteSound(w, cfg, routes[1..])
  {
    hide HopSound, NotAToken;
    var rest := routes[1..];
    assert forall i :: 0 <= i < |rest| ==> rest[i] == routes[i + 1];
    assert rest[|rest| - 1] == routes[|routes| - 1];
  }

  /** The first hop, in the world the earlier hops left behind. */
  lemma FirstHop(w: World, c: World, cfg: Config, routes: seq<Route>, amountIn: nat, out: nat)
    requires RouteSound(w, cfg, routes) && Carried(w, c, routes, amountIn)
    requires amountIn > 0 && out > 0
    requires var p := w.pairs[routes[0].pair];
      GetAmountOut(amountIn, ReserveIn(p, routes[0].direction), ReserveOut(p, routes[0].direction), routes[0].fee)
          == Ok(out)
    ensures var result := SwapHop(c, cfg, routes[0], out, Recipient(cfg, routes));
      var p := w.pairs[routes[0].pair];
      var token := TokenOut(p, routes[0].direction);
      && (result.Ok? <==> HopFits(w, routes[0], amountIn, out))
      && (result.Ok? ==>
            && result.value.pairs.Keys == c.pairs.Keys
            && (forall a :: a in c.pairs && a != routes[0].pair ==> result.value.pairs[a] == c.pairs[a])
            && out <= Get(c.tokens, (token, routes[0].pair))
            && result.value.tokens == Move(c.tokens, (token, routes[0].pair), (token, Recipient(cfg, routes)), out)
            && WethOf(result.value, cfg) == WethOf(c, cfg) + (if |routes| == 1 then out else 0))
  {
    hide SwapCall, GetAmountOut;
    assert HopSound(w, routes[0]);
    assert routes[0].pair != cfg.account && (|routes| > 1 ==> routes[1].pair != cfg.account);
    assert NotAToken(Recipient(cfg, routes), w.pairs[routes[0].pair]);
    HopOutcome(State(c.pairs[routes[0].pair], c.tokens), Env(cfg.self, cfg.timestamp, 0), routes[0].direction,
               amountIn, out, Recipient(cfg, routes), routes[0].fee);
  }

  /** A payment to the next pair funds it and leaves all later pairs as they were. */
  lemma NextIsCarried(w: World, c: World, c1: World, cfg: Config, routes: seq<Route>, amountIn: nat, out: nat)
    requires RouteSound(w, cfg, routes) && Carried(w, c, routes, amountIn) && |routes| > 1
    requires c1.pairs.Keys == c.pairs.Keys
    requires forall a :: a in c.pairs && a != routes[0].pair ==> c1.pairs[a] == c.pairs[a]
    requires var token := TokenOut(w.pairs[routes[0].pair], routes[0].direction);
      && out <= Get(c.tokens, (token, routes[0].pair))
      && c1.tokens == Move(c.tokens, (token, routes[0].pair), (token, routes[1].pair), out)
    ensures Carried(w, c1, routes[1..], out)
  {
    var rest := routes[1..];
    forall i | 0 <= i < |rest|
      ensures rest[i].pair in c1.pairs && c1.pairs[rest[i].pair] == w.pairs[rest[i].pair]
      ensures BalanceIn(c1, rest[i]) == BalanceIn(w, rest[i]) + (if i == 0 then out else 0)
      ensures BalanceOut(c1, rest[i]) == BalanceOut(w, rest[i])
    {
      assert rest[i] == routes[i + 1] && routes[i + 1].pair != routes[0].pair;
      assert HopSound(w, routes[i + 1]);
      assert i > 0 ==> routes[i + 1].pair != routes[1].pair;
    }
  }

  /** The hops of a quoted route all succeed exactly when they fit, and the account ends up with the
      last amount. */
  lemma {:induction false} HopsOutcome(w: World, c: World, cfg: Config, routes: seq<Route>, amountIn: nat)
    requires RouteSound(w, cfg, routes) && Carried(w, c, routes, amountIn)
    requires QuoteRoute(w, amountIn, routes).Ok?
    requires QuoteRoute(w, amountIn, routes).value[|routes| - 1] > 0
    ensures var amounts := QuoteRoute(w, amountIn, routes).value;
      var result := RunHops(c, cfg, routes, amounts);
      && (result.Ok? <==> Fits(w, routes, amounts, amountIn))
      && (result.Ok? ==> WethOf(result.value, cfg) == WethOf(c, cfg) + amounts[|amounts| - 1])
    decreases routes
  {
    hide SwapHop, GetAmountOut, RouteSound, Carried, HopFits;
    RouteIsDeployed(w, cfg, routes);
    QuotePositive(w, amountIn, routes);
    var amounts := QuoteRoute(w, amountIn, routes).value;
    var out := amounts[0];
    FirstHop(w, c, cfg, routes, amountIn, out);
    var hop := SwapHop(c, cfg, routes[0], out, Recipient(cfg, routes));
    if hop.Ok? && |routes| > 1 {
      var rest := routes[1..];
      assert amounts[1..] == QuoteRoute(w, out, rest).value;
      RestIsSound(w, cfg, routes);
      NextIsCarried(w, c, hop.value, cfg, routes, amountIn, out);
      HopsOutcome(w, hop.value, cfg, rest, out);
    } else if hop.Ok? {
      assert routes[1..] == [] && amounts[1..] == [];
    }
  }

  /** What a caller can arrange: WETH goes into the first pair, and the executor may spend it. */
  ghost predicate Funded(w: World, cfg: Config, routes: seq<Route>, amountIn: nat)
    requires routes != [] && routes[0].pair in w.pairs
  {
    && TokenIn(w.pairs[routes[0].pair], routes[0].direction) == cfg.weth
    && amountIn <= w.allowance
  }

  lemma FundingIsCarried(w: World, cfg: Config, routes: seq<Route>, amountIn: nat)
    requires RouteSound(w, cfg, routes) && routes[0].pair in w.pairs
    requires Funded(w, cfg, routes, amountIn) && amountIn <= WethOf(w, cfg)
    ensures SpendWeth(w, cfg, routes[0].pair, amountIn).Ok?
    ensures var c := SpendWeth(w, cfg, routes[0].pair, amountIn).value;
      && (forall i :: 0 <= i < |routes| ==> routes[i].pair in w.pairs)
      && Carried(w, c, routes, amountIn)
      && WethOf(c, cfg) == WethOf(w, cfg) - amountIn
  {
    hide PowerOfTwo;
    RouteIsDeployed(w, cfg, routes);
    var c := SpendWeth(w, cfg, routes[0].pair, amountIn).value;
    forall i | 0 <= i < |routes|
      ensures BalanceIn(c, routes[i]) == BalanceIn(w, routes[i]) + (if i == 0 then amountIn else 0)
      ensures BalanceOut(c, routes[i]) == BalanceOut(w, routes[i])
    {
      assert HopSound(w, routes[i]) && routes[i].pair != cfg.account;
      assert i > 0 ==> routes[0].pair != routes[i].pair;
    }
  }

  /** The promise of `_swap`, for routes of any length over distinct pairs that chain from WETH to
      WETH at fees of at least 0.3%: once the quote exceeds the stake, every hop and the final check
      go through exactly when the hops fit, and the account has gained what the quote said. A quote
      that does not exceed the stake is refused before anything moves. */
  lemma QuotedRouteGoesThrough(w: World, cfg: Config, requested: nat, routes: seq<Route>)
    requires RouteSound(w, cfg, routes) && routes[0].pair in w.pairs
    requires Funded(w, cfg, routes, Min(requested, WethOf(w, cfg)))
    ensures var amountIn := Min(requested, WethOf(w, cfg));
      var result := SwapRoutes(w, cfg, requested, routes);
      match QuoteRoute(w, amountIn, routes)
      case Revert(reason) => result == Revert(reason)
      case Ok(amounts) =>
        var last := amounts[|amounts| - 1];
        if last <= amountIn then result == Revert(AmountOutLessThanAmountIn)
        else
          && (result.Ok? <==> Fits(w, routes, amounts, amountIn))
          && (result.Ok? ==> WethOf(result.value, cfg) == WethOf(w, cfg) - amountIn + last)
  {
    hide RouteSound, Carried, Fits, QuoteRoute, RunHops, SpendWeth, WethOf, Funded;
    RouteIsDeployed(w, cfg, routes);
    var amountIn := Min(requested, WethOf(w, cfg));
    var quote := QuoteRoute(w, amountIn, routes);
    if quote.Ok? && quote.value[|routes| - 1] > amountIn {
      FundingIsCarried(w, cfg, routes, amountIn);
      HopsOutcome(w, SpendWeth(w, cfg, routes[0].pair, amountIn).value, cfg, routes, amountIn);
    }
  }

  // ---- any route ----

  lemma {:induction false} HopsKeepAllowance(w: World, cfg: Config, routes: seq<Route>, amounts: seq<nat>)
    requires |routes| == |amounts| && RunHops(w, cfg, routes, amounts).Ok?
    ensures RunHops(w, cfg, routes, amounts).value.allowance == w.allowance
    decreases routes
  {
    hide SwapCall;
    if routes != [] {
      var hop := SwapHop(w, cfg, routes[0], amounts[0], Recipient(cfg, routes)).value;
      HopsKeepAllowance(hop, cfg, routes[1..], amounts[1..]);
    }
  }

  /** Whatever routes are asked for, sound or not: a success leaves the account with more WETH than before,
      and uses up of its approval no more than was asked for and no more than the account had. */
  lemma SuccessMeansGain(w: World, cfg: Config, requested: nat, routes: seq<Route>)
    requires SwapRoutes(w, cfg, requested, routes).Ok?
    ensures var final := SwapRoutes(w, cfg, requested, routes).value;
      && WethOf(final, cfg) > WethOf(w, cfg)
      && (w.allowance == TWO_256 - 1 ==> final.allowance == w.allowance)
      && (w.allowance != TWO_256 - 1 ==>
            && final.allowance <= w.allowance
            && w.allowance - final.allowance <= requested
            && w.allowance - final.allowance <= WethOf(w, cfg)
            && (w.allowance - final.allowance == requested || w.allowance - final.allowance == WethOf(w, cfg)))
  {
    hide RunHops, QuoteRoute, PowerOfTwo;
    var amountIn := Min(requested, WethOf(w, cfg));
    var amounts := QuoteRoute(w, amountIn, routes).value;
    HopsKeepAllowance(SpendWeth(w, cfg, routes[0].pair, amountIn).value, cfg, routes, amounts);
  }

  // ---- a route that does not fit ----

  /** Two pairs between tokens 1 and 2; somebody sent token 2 to the first one and synced it. */
  function HalfEmpty(): World {
    World(map[11 := InitialPair(11, 1, 2).(reserve1 := 1000),
              12 := InitialPair(12, 1, 2).(reserve0 := 1_000_000, reserve1 := 1000)],
          map[(2, 11) := 1000, (1, 12) := 1_000_000, (2, 12) := 1000, (1, 13) := 100],
          100)
  }

  /** Each of the two pairs is a new one that was sent what it holds and synced. */
  lemma HalfEmptyIsReachable(self: Account)
    requires self == 11 || self == 12
    ensures var empty := State(InitialPair(self, 1, 2), map[]);
      var steps := [TokenStep(HalfEmpty().tokens), CallStep(Env(13, 0, 0), Sync)];
      && Valid(empty) && LegalRun(empty, steps)
      && After(empty, steps) == State(HalfEmpty().pairs[self], HalfEmpty().tokens)
  {
    hide Sum, Accumulate;
    var empty := State(InitialPair(self, 1, 2), map[]);
    InitialIsValid(self, 1, 2, map[]);
    var sent, sync := TokenStep(HalfEmpty().tokens), CallStep(Env(13, 0, 0), Sync);
    assert [sent, sync][1..] == [sync] && [sync][1..] == [];
    var st1 := Next(empty, sent);
    assert Execute(st1, Env(13, 0, 0), Sync) == SyncCall(st1, Env(13, 0, 0));
    assert After(st1, [sync]) == Next(st1, sync);
    assert LegalRun(st1, [sync]);
  }

  /** A quote can pass and still be refused: with nothing on the incoming side the quote is the whole
      reserve of the other side, which the pair never pays. */
  lemma EmptyReserveStopsTheRoute(cfg: Config, routes: seq<Route>)
    requires cfg == Config(14, 13, 1, 0) && routes == [Route(11, true, 30), Route(12, false, 30)]
    ensures RouteSound(HalfEmpty(), cfg, routes) && Funded(HalfEmpty(), cfg, routes, 10)
    ensures QuoteRoute(HalfEmpty(), 10, routes) == Ok([1000, 499_248])
    ensures SwapRoutes(HalfEmpty(), cfg, 10, routes) == Revert(InsufficientLiquidity)
  {
    hide SwapRoutes;
    WordSize();
    var w := HalfEmpty();
    assert HopSound(w, routes[0]) && HopSound(w, routes[1]);
    assert GetAmountOut(10, 0, 1000, 30) == Ok(1000);
    assert GetAmountOut(1000, 1000, 1_000_000, 30) == Ok(499_248);
    assert routes[1..] == [routes[1]] && [routes[1]][1..] == [];
    assert QuoteRoute(w, 499_248, []) == Ok([]);
    assert [499_248] + [] == [499_248];
    assert QuoteRoute(w, 1000, [routes[1]]) == Ok([499_248]);
    assert [1000] + [499_248] == [1000, 499_248];
    RefusedByFirstPair(cfg, routes);
  }

  lemma RefusedByFirstPair(cfg: Config, routes: seq<Route>)
    requires cfg == Config(14, 13, 1, 0) && routes == [Route(11, true, 30), Route(12, false, 30)]
    requires QuoteRoute(HalfEmpty(), 10, routes) == Ok([1000, 499_248])
    ensures SwapRoutes(HalfEmpty(), cfg, 10, routes) == Revert(InsufficientLiquidity)
  {
    hide QuoteRoute, CheckK, Update;
  }
}
