/** Off-chain pricing over exact reals: a path of hops behaves as one pool. */
module Pricing {
  import opened Evm
  import opened Protocol

  const FEE_BASE: real := 10000.0

  /** `GetAmountOut`; an empty side or amount yields nothing. A fee above the whole may make the
      denominator zero. The infinity that the code then gets is negative, and like 0 it is worth nothing
      on the next hop and less than any stake at the end. */
  function GetAmountOut(amountIn: real, reserveIn: real, reserveOut: real, fee: real): real {
    if amountIn <= 0.0 || reserveIn <= 0.0 || reserveOut <= 0.0 then 0.0 else
      var amountInWithFee := amountIn * (FEE_BASE - fee);
      var denominator := reserveIn * FEE_BASE + amountInWithFee;
      if denominator == 0.0 then 0.0 else amountInWithFee * reserveOut / denominator
  }

  datatype Step = Broken | Step(amount: real, token: Address)

  function ReserveOf(p: PairRecord, forward: bool): real {
    (if forward then p.reserve0 else p.reserve1) as real
  }

  /** One hop from whichever side of the pair carries the token in hand. */
  function HopOut(p: PairRecord, step: Step): Step {
    if step.Broken? then Broken
    else if p.token0 == step.token then
      Step(GetAmountOut(step.amount, ReserveOf(p, true), ReserveOf(p, false), p.fee as real), p.token1)
    else if p.token1 == step.token then
      Step(GetAmountOut(step.amount, ReserveOf(p, false), ReserveOf(p, true), p.fee as real), p.token0)
    else Broken
  }

  function PathOut(step: Step, path: seq<PairRecord>): Step
    decreases path
  {
    if path == [] then step else PathOut(HopOut(path[0], step), path[1..])
  }

  /** What a whole path pays: nothing unless it leads back to the token it started from. */
  function AmountsOut(tokenIn: Address, amountIn: real, path: seq<PairRecord>): real {
    match PathOut(Step(amountIn, tokenIn), path)
    case Broken => 0.0
    case Step(amount, token) => if token == tokenIn then amount else 0.0
  }

  lemma BrokenStays(path: seq<PairRecord>)
    ensures PathOut(Broken, path) == Broken
    decreases path
  {
  }

  method GetAmountsOut(tokenIn: Address, amountIn: real, path: seq<PairRecord>) returns (out: real)
    ensures out == AmountsOut(tokenIn, amountIn, path)
  {
    var pAmtOut, tokenOut := amountIn, tokenIn;
    var i := 0;
    assert path[0..] == path;
    while i < |path|
      invariant 0 <= i <= |path|
      invariant PathOut(Step(amountIn, tokenIn), path) == PathOut(Step(pAmtOut, tokenOut), path[i..])
    {
      hide GetAmountOut;
      var pair := path[i];
      var r0, r1 := pair.reserve0 as real, pair.reserve1 as real;
      assert path[i..][1..] == path[i + 1..] && path[i..][0] == pair;
      if pair.token0 == tokenOut {
        pAmtOut := GetAmountOut(pAmtOut, r0, r1, pair.fee as real);
        tokenOut := pair.token1;
      } else if pair.token1 == tokenOut {
        pAmtOut := GetAmountOut(pAmtOut, r1, r0, pair.fee as real);
        tokenOut := pair.token0;
      } else {
        BrokenStays(path[i + 1..]);
        return 0.0;
      }
      i := i + 1;
    }
    if tokenOut != tokenIn {
      return 0.0;
    }
    return pAmtOut;
  }

  // ---- the virtual pool ----

  /** A pool that pays `a * x / (b + c * x)` for `x`. */
  datatype Pool = Pool(a: real, b: real, c: real) {
    ghost predicate Sound() { a > 0.0 && b > 0.0 && c >= 0.0 }

    function Pays(x: real): real
      requires b + c * x != 0.0
    {
      a * x / (b + c * x)
    }
  }

  /** A pair in use: both reserves filled, a fee below the whole. */
  ghost predicate Live(p: PairRecord) {
    p.reserve0 > 0 && p.reserve1 > 0 && 0 <= p.fee < 10000 && p.token0 != p.token1
  }

  ghost predicate AllLive(path: seq<PairRecord>) {
    forall i :: 0 <= i < |path| ==> Live(path[i])
  }

  /** The other token of a pair. */
  function Exit(p: PairRecord, token: Address): Address {
    if p.token0 == token then p.token1 else p.token0
  }

  /** The path leads from `from` to `to`, each pair taking the token the one before paid. */
  ghost predicate Chains(from: Address, path: seq<PairRecord>, to: Address)
    decreases path
  {
    if path == [] then from == to else
      (path[0].token0 == from || path[0].token1 == from) && Chains(Exit(path[0], from), path[1..], to)
  }

  function HopPool(p: PairRecord, token: Address): Pool {
    var forward := p.token0 == token;
    var kept := FEE_BASE - p.fee as real;
    Pool(kept * ReserveOf(p, !forward), ReserveOf(p, forward) * FEE_BASE, kept)
  }

  /** The pool that pays what `second` pays for what `first` pays. */
  function Compose(first: Pool, second: Pool): Pool {
    Pool(second.a * first.a, second.b * first.b, second.b * first.c + second.c * first.a)
  }

  const IDENTITY := Pool(1.0, 1.0, 0.0)

  /** The whole path as one pool. */
  function Virtual(from: Address, path: seq<PairRecord>): Pool
    decreases path
  {
    if path == [] then IDENTITY else Compose(HopPool(path[0], from), Virtual(Exit(path[0], from), path[1..]))
  }

  /** The post-fee spot rate of a hop, and of a path. */
  function Rate(p: PairRecord, token: Address): real
    requires p.reserve0 > 0 && p.reserve1 > 0
  {
    var forward := p.token0 == token;
    ReserveOf(p, !forward) / ReserveOf(p, forward) * (FEE_BASE - p.fee as real) / FEE_BASE
  }

  ghost function PathRate(from: Address, path: seq<PairRecord>): real
    requires AllLive(path)
    decreases path
  {
    if path == [] then 1.0 else
      Rate(path[0], from) * PathRate(Exit(path[0], from), path[1..])
  }

  /** Where a path leads, if each pair takes the token the one before paid. */
  function End(from: Address, path: seq<PairRecord>): Address
    decreases path
  {
    if path == [] then from else End(Exit(path[0], from), path[1..])
  }

  lemma {:induction false} StrayPathBreaks(from: Address, path: seq<PairRecord>, x: real)
    ensures if Chains(from, path, End(from, path)) then
              PathOut(Step(x, from), path).Step? && PathOut(Step(x, from), path).token == End(from, path)
            else PathOut(Step(x, from), path) == Broken
    ensures forall to :: Chains(from, path, to) ==> to == End(from, path)
    decreases path
  {
    hide GetAmountOut;
    if path != [] {
      var p, rest := path[0], path[1..];
      if p.token0 == from || p.token1 == from {
        StrayPathBreaks(Exit(p, from), rest, HopOut(p, Step(x, from)).amount);
      } else {
        BrokenStays(rest);
      }
    }
  }

  /** A path that breaks off or does not lead back to where it started pays nothing. */
  lemma StrayPathPaysNothing(token: Address, path: seq<PairRecord>, x: real)
    requires !Chains(token, path, token)
    ensures AmountsOut(token, x, path) == 0.0
  {
    hide GetAmountOut;
    StrayPathBreaks(token, path, x);
  }

  // ---- real arithmetic ----

  lemma MulPositive(x: real, y: real)
    requires x > 0.0 && y > 0.0
    ensures x * y > 0.0
  {
  }

  lemma DivPositive(x: real, y: real)
    requires x > 0.0 && y > 0.0
    ensures x / y > 0.0
  {
  }

  lemma QuotientUnique(n: real, d: real, q: real)
    requires d != 0.0 && q * d == n
    ensures n / d == q
  {
  }

  lemma DivTimes(n: real, d: real)
    requires d != 0.0
    ensures n / d * d == n
  {
  }

  lemma MulMonotoneReal(a: real, b: real, c: real)
    requires a <= b && 0.0 <= c
    ensures a * c <= b * c
  {
  }

  lemma CancelReal(a: real, b: real, c: real)
    requires c > 0.0 && a * c < b * c
    ensures a < b
  {
    if b <= a {
      MulMonotoneReal(b, a, c);
    }
  }

  lemma FactorAboveOne(a: real, b: real, factor: real)
    requires 0.0 < b < a && a == factor * b
    ensures factor > 1.0
  {
    if factor <= 1.0 {
      MulMonotoneReal(factor, 1.0, b);
    }
  }

  /** Feeding one pool's payment to another is the composed pool. */
  lemma ComposePays(first: Pool, second: Pool, x: real)
    requires first.Sound() && second.Sound() && x > 0.0
    ensures first.b + first.c * x > 0.0 && first.Pays(x) > 0.0
    ensures second.b + second.c * first.Pays(x) > 0.0
    ensures Compose(first, second).b + Compose(first, second).c * x > 0.0
    ensures second.Pays(first.Pays(x)) == Compose(first, second).Pays(x)
  {
    var d := first.b + first.c * x;
    MulMonotoneReal(0.0, first.c, x);
    MulPositive(first.a, x);
    var y := first.Pays(x);
    DivPositive(first.a * x, d);
    DivTimes(first.a * x, d);
    MulMonotoneReal(0.0, second.c, y);
    var e := second.b + second.c * y;
    var all := Compose(first, second);
    assert e * d == all.b + all.c * x by {
      assert second.c * y * d == second.c * (y * d);
      assert second.c * (first.a * x) == second.c * first.a * x;
      assert second.b * (first.c * x) == second.b * first.c * x;
    }
    MulPositive(e, d);
    DivTimes(all.a * x, e * d);
    ScaleQuotient(second.a * y, e, d, all.a * x);
  }

  /** `n / e == m / (e * d)` when `m == n * d`. */
  lemma ScaleQuotient(n: real, e: real, d: real, m: real)
    requires e > 0.0 && d > 0.0 && m == n * d
    ensures e * d > 0.0 && n / e == m / (e * d)
  {
    MulPositive(e, d);
    var q := n / e;
    DivTimes(n, e);
    assert q * (e * d) == q * e * d;
    QuotientUnique(m, e * d, q);
  }

  // ---- the theorems ----

  lemma HopPoolSound(p: PairRecord, token: Address)
    requires Live(p)
    ensures HopPool(p, token).Sound() && HopPool(p, token).c > 0.0
  {
    var forward := p.token0 == token;
    var kept, out, into := FEE_BASE - p.fee as real, ReserveOf(p, !forward), ReserveOf(p, forward);
    assert kept > 0.0 && out > 0.0 && into > 0.0;
    MulPositive(kept, out);
    MulPositive(into, FEE_BASE);
    assert HopPool(p, token) == Pool(kept * out, into * FEE_BASE, kept);
  }

  lemma ComposeSound(first: Pool, second: Pool)
    requires first.Sound() && second.Sound()
    ensures Compose(first, second).Sound()
    ensures first.c > 0.0 ==> Compose(first, second).c > 0.0
  {
    MulPositive(second.a, first.a);
    MulPositive(second.b, first.b);
    MulMonotoneReal(0.0, first.c, second.b);
    MulMonotoneReal(0.0, second.c, first.a);
    if first.c > 0.0 {
      MulPositive(second.b, first.c);
    }
  }

  lemma {:induction false} VirtualSound(from: Address, path: seq<PairRecord>)
    requires AllLive(path)
    ensures Virtual(from, path).Sound()
    ensures path != [] ==> Virtual(from, path).c > 0.0
    decreases path
  {
    if path != [] {
      VirtualSound(Exit(path[0], from), path[1..]);
      HopPoolSound(path[0], from);
      ComposeSound(HopPool(path[0], from), Virtual(Exit(path[0], from), path[1..]));
    }
  }

  /** One hop pays what its pool pays. */
  lemma HopPays(p: PairRecord, token: Address, x: real)
    requires Live(p) && (p.token0 == token || p.token1 == token) && x > 0.0
    ensures HopPool(p, token).b + HopPool(p, token).c * x > 0.0
    ensures HopOut(p, Step(x, token)) == Step(HopPool(p, token).Pays(x), Exit(p, token))
  {
    HopPoolSound(p, token);
    var pool := HopPool(p, token);
    MulPositive(pool.c, x);
    var kept, out := FEE_BASE - p.fee as real, ReserveOf(p, p.token0 != token);
    assert x * kept * out == kept * out * x;
    assert x * kept == kept * x;
  }

  /** A chaining path of any length pays exactly what its virtual pool pays. */
  lemma {:induction false} PathIsVirtualPool(from: Address, path: seq<PairRecord>, to: Address, x: real)
    requires AllLive(path) && Chains(from, path, to) && x > 0.0
    ensures Virtual(from, path).b + Virtual(from, path).c * x > 0.0
    ensures PathOut(Step(x, from), path) == Step(Virtual(from, path).Pays(x), to)
    decreases path
  {
    hide HopPool, HopOut, Live, Compose;
    if path == [] {
      assert IDENTITY.Pays(x) == x;
    } else {
      var p, next := path[0], Exit(path[0], from);
      HopPays(p, from, x);
      HopPoolSound(p, from);
      VirtualSound(next, path[1..]);
      ComposePays(HopPool(p, from), Virtual(next, path[1..]), x);
      PathIsVirtualPool(next, path[1..], to, HopPool(p, from).Pays(x));
    }
  }

  /** The first coefficients of the virtual pool are in the ratio of the path's spot rate. */
  lemma {:induction false} VirtualRate(from: Address, path: seq<PairRecord>)
    requires AllLive(path)
    ensures PathRate(from, path) > 0.0
    ensures Virtual(from, path).a == PathRate(from, path) * Virtual(from, path).b
    decreases path
  {
    hide HopPool, Rate;
    if path != [] {
      var p, rest := path[0], path[1..];
      var next := Exit(p, from);
      VirtualRate(next, rest);
      HopRate(p, from);
      var rate, later := Rate(p, from), PathRate(next, rest);
      var hop, tail := HopPool(p, from), Virtual(next, rest);
      MulPositive(rate, later);
      RatesMultiply(rate, later, hop.b, tail.b);
    }
  }

  lemma RatesMultiply(rate: real, later: real, b: real, tail: real)
    ensures (later * tail) * (rate * b) == rate * later * (tail * b)
  {
  }

  lemma HopRate(p: PairRecord, token: Address)
    requires Live(p)
    ensures Rate(p, token) > 0.0
    ensures HopPool(p, token).a == Rate(p, token) * HopPool(p, token).b
  {
    var forward := p.token0 == token;
    var out, into, kept := ReserveOf(p, !forward), ReserveOf(p, forward), FEE_BASE - p.fee as real;
    var q := out / into;
    DivPositive(out, into);
    DivTimes(out, into);
    MulPositive(q, kept);
    DivPositive(q * kept, FEE_BASE);
    DivTimes(q * kept, FEE_BASE);
    assert Rate(p, token) * (into * FEE_BASE) == Rate(p, token) * FEE_BASE * into;
    assert q * kept * into == q * into * kept;
  }

  /** More in, more out. */
  lemma PoolIncreases(pool: Pool, x: real, y: real)
    requires pool.Sound() && 0.0 < x < y
    ensures pool.b + pool.c * x > 0.0 && pool.b + pool.c * y > 0.0
    ensures pool.Pays(x) < pool.Pays(y)
  {
    var dx, dy := pool.b + pool.c * x, pool.b + pool.c * y;
    MulMonotoneReal(0.0, pool.c, x);
    MulMonotoneReal(0.0, pool.c, y);
    var px, py := pool.Pays(x), pool.Pays(y);
    DivTimes(pool.a * x, dx);
    DivTimes(pool.a * y, dy);
    MulPositive(dx, dy);
    assert px * (dx * dy) == pool.a * x * dy && py * (dx * dy) == pool.a * y * dx;
    assert pool.a * y * dx - pool.a * x * dy == pool.a * pool.b * (y - x) by {
      assert pool.a * y * (pool.c * x) == pool.a * x * (pool.c * y);
    }
    MulPositive(pool.a, pool.b);
    MulPositive(pool.a * pool.b, y - x);
    CancelReal(px, py, dx * dy);
  }

  /** A pool pays more than it takes exactly for the amounts below `(a - b) / c`. */
  lemma PoolProfit(pool: Pool, x: real)
    requires pool.Sound() && x > 0.0
    ensures pool.b + pool.c * x > 0.0
    ensures pool.Pays(x) > x <==> pool.c * x < pool.a - pool.b
  {
    var d := pool.b + pool.c * x;
    MulMonotoneReal(0.0, pool.c, x);
    var paid := pool.Pays(x);
    DivTimes(pool.a * x, d);
    ScaleStrict(x, paid, d);
    ScaleStrict(d, pool.a, x);
    SwapFactors(x, d);
  }

  lemma ScaleStrict(a: real, b: real, c: real)
    requires c > 0.0
    ensures a < b <==> a * c < b * c
  {
    if a < b {
      MulPositive(b - a, c);
      Difference(b, a, c);
    } else {
      MulMonotoneReal(b, a, c);
    }
  }

  lemma Difference(b: real, a: real, c: real)
    ensures (b - a) * c == b * c - a * c
  {
  }

  lemma SwapFactors(x: real, d: real)
    ensures x * d == d * x
  {
  }

  /** A path back to its own start makes a profit for some amount if and only if the product of its
      post-fee spot rates exceeds 1; then it does so exactly for all small enough amounts. */
  lemma ProfitNeedsRateAboveOne(token: Address, path: seq<PairRecord>, x: real)
    requires AllLive(path) && Chains(token, path, token) && x > 0.0
    ensures var pool := Virtual(token, path);
      && (AmountsOut(token, x, path) > x <==> pool.c * x < (PathRate(token, path) - 1.0) * pool.b)
      && (AmountsOut(token, x, path) > x ==> PathRate(token, path) > 1.0)
  {
    hide Virtual, PathRate, PathOut;
    PathIsVirtualPool(token, path, token, x);
    VirtualSound(token, path);
    VirtualRate(token, path);
    var pool := Virtual(token, path);
    PoolProfit(pool, x);
    assert (PathRate(token, path) - 1.0) * pool.b == pool.a - pool.b;
    if AmountsOut(token, x, path) > x {
      MulMonotoneReal(0.0, pool.c, x);
      var rate := PathRate(token, path);
      assert pool.b < pool.a && pool.a == rate * pool.b;
      FactorAboveOne(pool.a, pool.b, rate);
    }
  }

  lemma RateAboveOnePays(token: Address, path: seq<PairRecord>) returns (x: real)
    requires AllLive(path) && Chains(token, path, token) && path != [] && PathRate(token, path) > 1.0
    ensures x > 0.0 && AmountsOut(token, x, path) > x
  {
    hide Virtual, PathRate, PathOut, AmountsOut;
    VirtualSound(token, path);
    VirtualRate(token, path);
    var pool := Virtual(token, path);
    var margin := (PathRate(token, path) - 1.0) * pool.b;
    MulPositive(PathRate(token, path) - 1.0, pool.b);
    x := margin / (2.0 * pool.c);
    MulPositive(2.0, pool.c);
    DivPositive(margin, 2.0 * pool.c);
    DivTimes(margin, 2.0 * pool.c);
    assert pool.c * x * 2.0 == margin;
    ProfitNeedsRateAboveOne(token, path, x);
  }
}
