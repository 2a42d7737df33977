/** The on-chain integer quote against the off-chain real one, on the same reserves and fees. */
module QuoteRefinement {
  import opened Evm
  import opened Protocol
  import opened Pricing
  import Quote
  import opened SwaperModel

  // ---- one hop ----

  lemma RealProduct(a: int, b: int)
    ensures (a * b) as real == a as real * b as real
  {
  }

  /** The floor quote `q` of a pool for `x`. */
  ghost predicate FloorOf(pool: Pool, x: real, q: real) {
    q * (pool.b + pool.c * x) <= pool.a * x < (q + 1.0) * (pool.b + pool.c * x)
  }

  lemma DenominatorPositive(pool: Pool, x: real)
    requires pool.Sound() && x >= 0.0
    ensures pool.b + pool.c * x > 0.0
  {
    MulMonotoneReal(0.0, pool.c, x);
  }

  /** A floor quote for less is at most the exact payment for more. */
  lemma FloorBelow(pool: Pool, x: real, y: real, q: real)
    requires pool.Sound() && 0.0 <= x <= y && FloorOf(pool, x, q)
    ensures pool.b + pool.c * y > 0.0 && q <= pool.Pays(y)
  {
    DenominatorPositive(pool, x);
    DenominatorPositive(pool, y);
    var dx, dy, paid := pool.b + pool.c * x, pool.b + pool.c * y, pool.Pays(y);
    DivTimes(pool.a * y, dy);
    assert q * dx * dy <= paid * dy * dx by {
      MulMonotoneReal(q * dx, pool.a * x, dy);
      MulPositive(pool.a, pool.b);
      MulMonotoneReal(x, y, pool.a * pool.b);
      assert pool.a * y * dx - pool.a * x * dy == y * (pool.a * pool.b) - x * (pool.a * pool.b) by {
        assert pool.a * y * (pool.c * x) == pool.a * x * (pool.c * y);
      }
    }
    MulPositive(dx, dy);
    CancelAtMost(q, paid, dx * dy);
  }

  lemma CancelAtMost(a: real, b: real, c: real)
    requires c > 0.0 && a * c <= b * c
    ensures a <= b
  {
    if b < a {
      MulPositive(a - b, c);
    }
  }

  /** Payments grow no faster than the spot rate. */
  lemma PaymentSlope(pool: Pool, rate: real, x: real, y: real)
    requires pool.Sound() && 0.0 <= x <= y && pool.a == rate * pool.b && rate > 0.0
    ensures pool.b + pool.c * x > 0.0 && pool.b + pool.c * y > 0.0
    ensures pool.Pays(y) <= pool.Pays(x) + rate * (y - x)
  {
    DenominatorPositive(pool, x);
    DenominatorPositive(pool, y);
    var dx, dy, px, py, gap := pool.b + pool.c * x, pool.b + pool.c * y, pool.Pays(x), pool.Pays(y), y - x;
    DivTimes(pool.a * x, dx);
    DivTimes(pool.a * y, dy);
    PaidIsNonNegative(pool, x);
    SlopeArithmetic(pool, rate, x, gap, px);
    assert y == x + gap;
    CancelAtMost(py, px + rate * gap, dy);
  }

  lemma PaidIsNonNegative(pool: Pool, x: real)
    requires pool.Sound() && 0.0 <= x
    ensures pool.b + pool.c * x > 0.0 && pool.Pays(x) >= 0.0
  {
    DenominatorPositive(pool, x);
    if x > 0.0 {
      MulPositive(pool.a, x);
      DivPositive(pool.a * x, pool.b + pool.c * x);
    }
  }

  lemma SlopeArithmetic(pool: Pool, rate: real, x: real, gap: real, px: real)
    requires pool.Sound() && 0.0 <= x && 0.0 <= gap && pool.a == rate * pool.b && rate > 0.0 && px >= 0.0
    requires px * (pool.b + pool.c * x) == pool.a * x
    ensures pool.a * (x + gap) <= (px + rate * gap) * (pool.b + pool.c * (x + gap))
  {
    var c := pool.c;
    MulMonotoneReal(0.0, c, gap);
    MulMonotoneReal(0.0, px, c * gap);
    MulMonotoneReal(0.0, c, x + gap);
    MulMonotoneReal(0.0, rate, gap);
    MulMonotoneReal(0.0, rate * gap, c * (x + gap));
    assert px * (pool.b + c * (x + gap)) == px * (pool.b + c * x) + px * (c * gap);
    assert rate * gap * (pool.b + c * (x + gap)) == rate * pool.b * gap + rate * gap * (c * (x + gap));
  }

  // ---- the integer quote as a floor ----

  /** The pair and the record agree on tokens and reserves. */
  ghost predicate Agrees(w: World, p: PairRecord) {
    && p.address in w.pairs
    && w.pairs[p.address].token0 == p.token0 && w.pairs[p.address].token1 == p.token1
    && w.pairs[p.address].reserve0 == p.reserve0 && w.pairs[p.address].reserve1 == p.reserve1
  }

  lemma FloorCast(weighted: nat, scaled: nat, reserveOut: nat, out: nat)
    requires out * (scaled + weighted) <= weighted * reserveOut < (out + 1) * (scaled + weighted)
    ensures var d := scaled as real + weighted as real;
      out as real * d <= weighted as real * reserveOut as real < (out as real + 1.0) * d
  {
    RealProduct(weighted, reserveOut);
    RealProduct(out, scaled + weighted);
    RealProduct(out + 1, scaled + weighted);
  }

  /** The coefficients of a hop's pool are those of the integer formula. */
  lemma PoolCast(p: PairRecord, token: Address, reserveIn: nat, reserveOut: nat, amountIn: nat)
    requires Live(p)
    requires reserveIn == (if p.token0 == token then p.reserve0 else p.reserve1)
    requires reserveOut == (if p.token0 == token then p.reserve1 else p.reserve0)
    ensures var pool, weighted := HopPool(p, token), amountIn * (Quote.FEE_BASE - p.fee);
      && pool.b + pool.c * amountIn as real == (reserveIn * Quote.FEE_BASE) as real + weighted as real
      && pool.a * amountIn as real == weighted as real * reserveOut as real
  {
    RealProduct(amountIn, Quote.FEE_BASE - p.fee);
    var kept, x, out := FEE_BASE - p.fee as real, amountIn as real, reserveOut as real;
    assert kept * out * x == x * kept * out;
    assert kept * x == x * kept;
  }

  lemma IntegerQuoteIsFloor(p: PairRecord, token: Address, reserveIn: nat, reserveOut: nat, amountIn: nat, out: nat)
    requires Live(p) && Quote.IsQuote(amountIn, reserveIn, reserveOut, p.fee, out)
    requires reserveIn == (if p.token0 == token then p.reserve0 else p.reserve1)
    requires reserveOut == (if p.token0 == token then p.reserve1 else p.reserve0)
    ensures FloorOf(HopPool(p, token), amountIn as real, out as real)
  {
    hide HopPool, FloorOf, Live;
    var weighted, scaled := amountIn * (Quote.FEE_BASE - p.fee), reserveIn * Quote.FEE_BASE;
    PoolCast(p, token, reserveIn, reserveOut, amountIn);
    FloorCast(weighted, scaled, reserveOut, out);
    FloorFrom(HopPool(p, token), amountIn as real, out as real, scaled as real + weighted as real,
              weighted as real * reserveOut as real);
  }

  lemma FloorFrom(pool: Pool, x: real, q: real, d: real, n: real)
    requires pool.b + pool.c * x == d && pool.a * x == n && q * d <= n < (q + 1.0) * d
    ensures FloorOf(pool, x, q)
  {
  }

  /** One hop: if the integer amount going in is at most the real one, the same holds of what comes
      out, and the gap is less than one unit plus the old gap times the hop's post-fee spot rate. */
  lemma HopGap(p: PairRecord, token: Address, reserveIn: nat, reserveOut: nat, amountIn: nat, exact: real, out: nat)
    requires Live(p) && (p.token0 == token || p.token1 == token) && amountIn as real <= exact
    requires reserveIn == (if p.token0 == token then p.reserve0 else p.reserve1)
    requires reserveOut == (if p.token0 == token then p.reserve1 else p.reserve0)
    requires Quote.GetAmountOut(amountIn, reserveIn, reserveOut, p.fee) == Evm.Ok(out)
    ensures var next := HopOut(p, Step(exact, token));
      && next.Step? && next.token == Exit(p, token)
      && out as real <= next.amount < out as real + 1.0 + (exact - amountIn as real) * Rate(p, token)
  {
    hide HopPool, Rate, HopOut, Quote.GetAmountOut, Quote.IsQuote, FloorOf;
    Quote.QuoteIsFloor(amountIn, reserveIn, reserveOut, p.fee);
    IntegerQuoteIsFloor(p, token, reserveIn, reserveOut, amountIn, out);
    HopPoolSound(p, token);
    HopRate(p, token);
    HopPaysFrom(p, token, exact);
    PoolGap(HopPool(p, token), Rate(p, token), amountIn as real, exact, out as real);
  }

  lemma PoolGap(pool: Pool, rate: real, x: real, y: real, q: real)
    requires pool.Sound() && 0.0 <= x <= y && FloorOf(pool, x, q) && pool.a == rate * pool.b && rate > 0.0
    ensures pool.b + pool.c * y > 0.0 && q <= pool.Pays(y) < q + 1.0 + (y - x) * rate
  {
    FloorBelow(pool, x, y, q);
    PaymentSlope(pool, rate, x, y);
    FloorAbove(pool, x, q);
  }

  lemma FloorAbove(pool: Pool, x: real, q: real)
    requires pool.Sound() && 0.0 <= x && FloorOf(pool, x, q)
    ensures pool.b + pool.c * x > 0.0 && pool.Pays(x) < q + 1.0
  {
    DenominatorPositive(pool, x);
    DivTimes(pool.a * x, pool.b + pool.c * x);
    CancelReal(pool.Pays(x), q + 1.0, pool.b + pool.c * x);
  }

  /** The hop pays what its pool pays, also for nothing. */
  lemma HopPaysFrom(p: PairRecord, token: Address, x: real)
    requires Live(p) && (p.token0 == token || p.token1 == token) && x >= 0.0
    ensures HopPool(p, token).b + HopPool(p, token).c * x > 0.0
    ensures HopOut(p, Step(x, token)) == Step(HopPool(p, token).Pays(x), Exit(p, token))
  {
    HopPoolSound(p, token);
    DenominatorPositive(HopPool(p, token), x);
    if x > 0.0 {
      HopPays(p, token, x);
    } else {
      var pool := HopPool(p, token);
      assert pool.a * x == 0.0;
      QuotientUnique(pool.a * x, pool.b + pool.c * x, 0.0);
    }
  }

  // ---- whole routes ----

  /** The gap bound carried along a path: times the rate, plus one, at each hop. */
  ghost function GapBound(gap: real, from: Address, path: seq<PairRecord>): real
    requires AllLive(path)
    decreases path
  {
    if path == [] then gap else GapBound(1.0 + gap * Rate(path[0], from), Exit(path[0], from), path[1..])
  }

  /** The hops that stand for a path of records. */
  ghost predicate Mirrors(w: World, routes: seq<Route>, from: Address, path: seq<PairRecord>)
    decreases path
  {
    && |routes| == |path|
    && (path != [] ==>
          && Agrees(w, path[0]) && 0 <= path[0].fee
          && routes[0] == Route(path[0].address, path[0].token0 == from, path[0].fee)
          && Mirrors(w, routes[1..], Exit(path[0], from), path[1..]))
  }

  lemma {:induction false} GapBoundGrows(a: real, b: real, from: Address, path: seq<PairRecord>)
    requires AllLive(path) && a <= b
    ensures GapBound(a, from, path) <= GapBound(b, from, path)
    decreases path
  {
    if path != [] {
      HopRate(path[0], from);
      MulMonotoneReal(a, b, Rate(path[0], from));
      GapBoundGrows(1.0 + a * Rate(path[0], from), 1.0 + b * Rate(path[0], from), Exit(path[0], from), path[1..]);
    }
  }

  lemma GapBoundStep(gap: real, next: real, from: Address, path: seq<PairRecord>)
    requires AllLive(path) && path != [] && next == 1.0 + gap * Rate(path[0], from)
    ensures GapBound(gap, from, path) == GapBound(next, Exit(path[0], from), path[1..])
  {
  }

  /** What the executor quotes on chain never exceeds what the monitor computed from the same reserves,
      and falls short of it by less than the accumulated bound. */
  lemma {:induction false} QuoteRefinesPricing(w: World, routes: seq<Route>, from: Address, path: seq<PairRecord>,
                                               to: Address, amountIn: nat, exact: real)
    requires AllLive(path) && Chains(from, path, to) && Mirrors(w, routes, from, path) && path != []
    requires amountIn as real <= exact
    requires QuoteRoute(w, amountIn, routes).Ok?
    ensures var out := QuoteRoute(w, amountIn, routes).value[|routes| - 1] as real;
      var priced := PathOut(Step(exact, from), path);
      && priced.Step? && priced.token == to
      && out <= priced.amount < out + GapBound(exact - amountIn as real, from, path)
    decreases path
  {
    hide HopOut, Rate, Quote.GetAmountOut;
    var p, next := path[0], Exit(path[0], from);
    var reserves := Reserves(w, routes[0]).value;
    var out := Quote.GetAmountOut(amountIn, reserves.0, reserves.1, routes[0].fee).value;
    HopGap(p, from, reserves.0, reserves.1, amountIn, exact, out);
    var step := HopOut(p, Step(exact, from));
    var before := exact - amountIn as real;
    var gap := 1.0 + before * Rate(p, from);
    GapBoundStep(before, gap, from, path);
    var rest := QuoteRoute(w, out, routes[1..]).value;
    assert QuoteRoute(w, amountIn, routes).value == [out] + rest;
    if |path| == 1 {
      assert path[1..] == [];
      assert GapBound(gap, next, path[1..]) == gap;
    } else {
      QuoteRefinesPricing(w, routes[1..], next, path[1..], to, out, step.amount);
      GapBoundGrows(step.amount - out as real, gap, next, path[1..]);
    }
  }
}
