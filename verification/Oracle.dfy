/** The price oracle: reading an accumulator twice gives the time-weighted mean price in between,
    although timestamps are kept modulo 2^32 and accumulators modulo 2^256. */
module Oracle {
  import opened Arithmetic
  import opened Evm
  import opened PairModel
  import opened PairInvariants
  import opened ProtocolFee

  predicate Priced(p: Pair) {
    p.reserve0 != 0 && p.reserve1 != 0
  }

  /** The price that the side `zero` accumulates, as a UQ112x112 number: nothing while a reserve is empty. */
  function Price(p: Pair, zero: bool): uint224 {
    if !Priced(p) then 0
    else if zero then UqDiv(Encode(p.reserve1), p.reserve0)
    else UqDiv(Encode(p.reserve0), p.reserve1)
  }

  function Cumulative(p: Pair, zero: bool): uint256 {
    if zero then p.price0CumulativeLast else p.price1CumulativeLast
  }

  /** The price is the ratio of the reserves times 2^112, rounded down. */
  lemma PriceIsRatio(p: Pair)
    requires Priced(p)
    ensures Price(p, true) * p.reserve0 <= p.reserve1 * TWO_112 < (Price(p, true) + 1) * p.reserve0
    ensures Price(p, false) * p.reserve1 <= p.reserve0 * TWO_112 < (Price(p, false) + 1) * p.reserve1
  {
    hide UqDiv, Encode, PowerOfTwo;
    QuotientIsFloor(p.reserve1, p.reserve0);
    QuotientIsFloor(p.reserve0, p.reserve1);
  }

  lemma QuotientIsFloor(y: uint112, x: uint112)
    requires x != 0
    ensures UqDiv(Encode(y), x) * x <= y * TWO_112 < (UqDiv(Encode(y), x) + 1) * x
  {
    hide UqDiv, PowerOfTwo;
    FloorTimes(Encode(y), x);
  }

  lemma FloorTimes(e: uint224, x: uint112)
    requires x != 0
    ensures UqDiv(e, x) * x <= e < (UqDiv(e, x) + 1) * x
  {
    hide PowerOfTwo;
    DivBounds(e, x);
  }

  /** `q` is `p` after its reserves were updated at time `now`. */
  ghost predicate Accrued(p: Pair, q: Pair, now: nat) {
    && q.blockTimestampLast == now % TWO_32
    && forall zero :: Cumulative(q, zero)
         == Wrap(Cumulative(p, zero) + Price(p, zero) * ((now % TWO_32 - p.blockTimestampLast) % TWO_32))
  }

  /** `q` has the oracle and the reserves of `p`. */
  ghost predicate SameOracle(p: Pair, q: Pair) {
    && q.reserve0 == p.reserve0 && q.reserve1 == p.reserve1 && q.blockTimestampLast == p.blockTimestampLast
    && q.price0CumulativeLast == p.price0CumulativeLast && q.price1CumulativeLast == p.price1CumulativeLast
  }

  lemma WrapAdd(a: int, b: int)
    ensures Wrap(Wrap(a) + b) == Wrap(a + b)
  {
    AddModulo(a, b, TWO_256);
  }

  lemma WrapFits(x: int)
    requires 0 <= x < TWO_256
    ensures Wrap(x) == x
  {
    ModUnique(x, 0, x, TWO_256);
  }

  // ---- single calls ----

  /** A call that updates the reserves. */
  predicate Updates(st: State, step: Step) {
    && step.CallStep?
    && (step.call.Mint? || step.call.Burn? || step.call.Swap? || step.call.Sync?)
    && Execute(st, step.env, step.call).Ok?
  }

  lemma UpdateAccrues(p: Pair, balance0: nat, balance1: nat, now: nat)
    requires Update(p, balance0, balance1, p.reserve0, p.reserve1, now).Ok?
    ensures Accrued(p, Update(p, balance0, balance1, p.reserve0, p.reserve1, now).value, now)
  {
    hide UqDiv, Encode, Wrap;
    WrapFits(p.price0CumulativeLast);
    WrapFits(p.price1CumulativeLast);
  }

  lemma AccruedFrom(p: Pair, p': Pair, q: Pair, now: nat)
    requires SameOracle(p, p') && Accrued(p', q, now)
    ensures Accrued(p, q, now)
  {
    hide UqDiv, Encode, Wrap;
    assert forall zero :: Price(p', zero) == Price(p, zero) && Cumulative(p', zero) == Cumulative(p, zero);
  }

  lemma SettleAccrues(p: Pair, balance0: nat, balance1: nat, env: Env)
    requires Settle(p, balance0, balance1, p.reserve0, p.reserve1, env).Ok?
    ensures Accrued(p, Settle(p, balance0, balance1, p.reserve0, p.reserve1, env).value, env.timestamp)
  {
    hide Update, UqDiv, Encode;
    UpdateAccrues(p, balance0, balance1, env.timestamp);
  }

  lemma MintAccrues(st: State, env: Env, to: Address)
    requires Valid(st) && MintCall(st, env, to).Ok?
    ensures Accrued(st.pair, MintCall(st, env, to).value.0.pair, env.timestamp)
  {
    hide MintFee, DepositShares, Settle, Accrued;
    var p0 := st.pair.(unlocked := false);
    MintFeeEffect(p0, env.feeTo);
    var p1 := MintFee(p0, env.feeTo).value;
    DepositEffect(p1, st.Balance0() - p0.reserve0, st.Balance1() - p0.reserve1);
    var (p2, liquidity) := DepositShares(p1, st.Balance0() - p0.reserve0, st.Balance1() - p0.reserve1).value;
    var p3 := MintShares(p2, to, liquidity).value;
    SettleAccrues(p3, st.Balance0(), st.Balance1(), env);
    AccruedFrom(st.pair, p3, Settle(p3, st.Balance0(), st.Balance1(), p3.reserve0, p3.reserve1, env).value,
                env.timestamp);
  }

  lemma BurnAccrues(st: State, env: Env, to: Address)
    requires Valid(st) && BurnCall(st, env, to).Ok?
    ensures Accrued(st.pair, BurnCall(st, env, to).value.0.pair, env.timestamp)
  {
    hide MintFee, ProRata, Settle, TokenTransfer, Accrued;
    var p0 := st.pair.(unlocked := false);
    MintFeeEffect(p0, env.feeTo);
    var p1 := MintFee(p0, env.feeTo).value;
    var shares := Get(p0.balanceOf, p0.self);
    var amount0 := ProRata(shares, st.Balance0(), p1.totalSupply).value;
    var amount1 := ProRata(shares, st.Balance1(), p1.totalSupply).value;
    var p2 := BurnShares(p1, p0.self, shares).value;
    var tokens1 := TokenTransfer(st.tokens, p0.token0, p0.self, to, amount0).value;
    var st2 := State(p2, TokenTransfer(tokens1, p0.token1, p0.self, to, amount1).value);
    SettleAccrues(p2, st2.Balance0(), st2.Balance1(), env);
    AccruedFrom(st.pair, p2, Settle(p2, st2.Balance0(), st2.Balance1(), p2.reserve0, p2.reserve1, env).value,
                env.timestamp);
  }

  lemma SwapAccrues(st: State, env: Env, amount0Out: nat, amount1Out: nat, to: Address, callback: seq<CalleeAction>)
    requires Valid(st) && SwapCall(st, env, amount0Out, amount1Out, to, callback).Ok?
    ensures Accrued(st.pair, SwapCall(st, env, amount0Out, amount1Out, to, callback).value.pair, env.timestamp)
  {
    hide CheckK, PayOut, Update, Accrued;
    var p0 := st.pair.(unlocked := false);
    var tokens1 := PayOut(st.tokens, p0.token0, p0.self, to, amount0Out).value;
    var tokens2 := PayOut(tokens1, p0.token1, p0.self, to, amount1Out).value;
    CalleeIsShutOut(State(p0, tokens2), env, callback);
    var st2 := RunCallee(State(p0, tokens2), env, callback).value;
    var p2 := st2.pair;
    UpdateAccrues(p2, st2.Balance0(), st2.Balance1(), env.timestamp);
    var p3 := Update(p2, st2.Balance0(), st2.Balance1(), p2.reserve0, p2.reserve1, env.timestamp).value;
    AccruedFrom(st.pair, p2, p3, env.timestamp);
    AccruedUnlocked(st.pair, p3, env.timestamp);
  }

  lemma AccruedUnlocked(p: Pair, q: Pair, now: nat)
    requires Accrued(p, q, now)
    ensures Accrued(p, q.(unlocked := true), now)
  {
    hide UqDiv, Encode, Wrap;
    var r := q.(unlocked := true);
    assert forall zero :: Cumulative(r, zero) == Cumulative(q, zero);
  }

  /** Updating calls accrue the price they found; no other step touches the oracle. */
  lemma StepAccrues(st: State, step: Step)
    requires Valid(st)
    ensures if Updates(st, step) then Accrued(st.pair, Next(st, step).pair, step.env.timestamp)
            else SameOracle(st.pair, Next(st, step).pair)
  {
    hide Accrued, MintCall, BurnCall, SwapCall, Update;
    if step.CallStep? && Execute(st, step.env, step.call).Ok? {
      var env := step.env;
      match step.call {
        case Mint(to) => MintAccrues(st, env, to);
        case Burn(to) => BurnAccrues(st, env, to);
        case Swap(amount0Out, amount1Out, to, callback) => SwapAccrues(st, env, amount0Out, amount1Out, to, callback);
        case Skim(to) => SkimEffect(st, to);
        case Sync => UpdateAccrues(st.pair, st.Balance0(), st.Balance1(), env.timestamp);
        case _ => ShareCallKeeps(st, env, step.call);
      }
    }
  }

  // ---- over runs ----

  /** Block times never run backwards and stay before `until`. */
  ghost predicate Timely(steps: seq<Step>, now: nat, until: nat)
    decreases steps
  {
    steps == [] ||
    (if steps[0].CallStep? then
       now <= steps[0].env.timestamp < until && Timely(steps[1..], steps[0].env.timestamp, until)
     else Timely(steps[1..], now, until))
  }

  /** The time of the last update of the reserves, when the one before the run was at `last`. */
  ghost function LastUpdate(st: State, steps: seq<Step>, last: nat): nat
    decreases steps
  {
    if steps == [] then last else
      LastUpdate(Next(st, steps[0]), steps[1..], if Updates(st, steps[0]) then steps[0].env.timestamp else last)
  }

  /** The sum over all updates of the price that held before, times how long it held. */
  ghost function PriceSeconds(st: State, steps: seq<Step>, last: nat, zero: bool): int
    decreases steps
  {
    if steps == [] then 0 else
      var rest := Next(st, steps[0]);
      if Updates(st, steps[0]) then
        var now := steps[0].env.timestamp;
        Price(st.pair, zero) * (now - last) + PriceSeconds(rest, steps[1..], now, zero)
      else PriceSeconds(rest, steps[1..], last, zero)
  }

  /** Every price that is accrued in the run lies between `low` and `high`. */
  ghost predicate PricesWithin(st: State, steps: seq<Step>, zero: bool, low: nat, high: nat)
    decreases steps
  {
    steps == [] ||
    ((Updates(st, steps[0]) ==> low <= Price(st.pair, zero) <= high)
     && PricesWithin(Next(st, steps[0]), steps[1..], zero, low, high))
  }

  /** Differences of truncated timestamps are exact below 2^32 seconds. */
  lemma ElapsedExact(last: nat, now: nat)
    requires last <= now < last + TWO_32
    ensures (now % TWO_32 - last % TWO_32) % TWO_32 == now - last
  {
  }

  /** One step: an update within 2^32 seconds of the last accrues price times elapsed time. */
  lemma StepOverTime(st: State, step: Step, last: nat, zero: bool)
    requires Valid(st) && Legal(st, step)
    requires st.pair.blockTimestampLast == last % TWO_32
    requires step.CallStep? ==> last <= step.env.timestamp < last + TWO_32
    ensures var st' := Next(st, step);
      && Valid(st')
      && if Updates(st, step) then
           && st'.pair.blockTimestampLast == step.env.timestamp % TWO_32
           && Cumulative(st'.pair, zero)
              == Wrap(Cumulative(st.pair, zero) + Price(st.pair, zero) * (step.env.timestamp - last))
         else
           && st'.pair.blockTimestampLast == last % TWO_32
           && Cumulative(st'.pair, zero) == Cumulative(st.pair, zero)
  {
    hide Execute, Next, Price, Legal, Wrap, Valid, Update, PowerOfTwo;
    StepKeepsValid(st, step);
    StepAccrues(st, step);
    if Updates(st, step) {
      ElapsedExact(last, step.env.timestamp);
    }
  }

  lemma IntervalBounds(low: nat, high: nat, price: nat, held: nat, tail: int, after: nat)
    requires low <= price <= high && low * after <= tail <= high * after
    ensures low * (held + after) <= price * held + tail <= high * (held + after)
  {
    MulMonotone(low, price, held);
    MulMonotone(price, high, held);
  }

  /** The price-seconds of a run lie between the extreme prices times the elapsed time. */
  lemma {:induction false} PriceSecondsBounded(st: State, steps: seq<Step>, last: nat, now: nat, until: nat,
                                               zero: bool, low: nat, high: nat)
    requires last <= now && Timely(steps, now, until)
    requires PricesWithin(st, steps, zero, low, high)
    ensures last <= LastUpdate(st, steps, last)
    ensures LastUpdate(st, steps, last) < until || LastUpdate(st, steps, last) == last
    ensures var elapsed := LastUpdate(st, steps, last) - last;
      low * elapsed <= PriceSeconds(st, steps, last, zero) <= high * elapsed
    decreases steps
  {
    hide Execute, Next, Price, PowerOfTwo;
    if steps != [] {
      var step, rest := steps[0], Next(st, steps[0]);
      var time := if step.CallStep? then step.env.timestamp else now;
      if Updates(st, step) {
        PriceSecondsBounded(rest, steps[1..], time, time, until, zero, low, high);
        IntervalBounds(low, high, Price(st.pair, zero), time - last, PriceSeconds(rest, steps[1..], time, zero),
                       LastUpdate(rest, steps[1..], time) - time);
      } else {
        PriceSecondsBounded(rest, steps[1..], last, time, until, zero, low, high);
      }
    }
  }

  /** Over a run the accumulator gains the price-seconds, modulo 2^256. */
  lemma {:induction false} RunAccrues(st: State, steps: seq<Step>, last: nat, now: nat, until: nat, zero: bool)
    requires Valid(st) && LegalRun(st, steps)
    requires st.pair.blockTimestampLast == last % TWO_32
    requires last <= now && Timely(steps, now, until) && until <= last + TWO_32
    ensures Cumulative(After(st, steps).pair, zero)
         == Wrap(Cumulative(st.pair, zero) + PriceSeconds(st, steps, last, zero))
    decreases steps
  {
    hide Execute, Next, Valid, Legal, Price, Cumulative, Wrap, PowerOfTwo;
    if steps == [] {
      WrapFits(Cumulative(st.pair, zero));
    } else {
      var step, rest := steps[0], Next(st, steps[0]);
      StepOverTime(st, step, last, zero);
      var time := if step.CallStep? then step.env.timestamp else now;
      if Updates(st, step) {
        RunAccrues(rest, steps[1..], time, time, until, zero);
        assert PriceSeconds(st, steps, last, zero)
            == Price(st.pair, zero) * (time - last) + PriceSeconds(rest, steps[1..], time, zero);
        WrapAdd(Cumulative(st.pair, zero) + Price(st.pair, zero) * (time - last),
                PriceSeconds(rest, steps[1..], time, zero));
      } else {
        RunAccrues(rest, steps[1..], last, time, until, zero);
      }
    }
  }

  /** For every run that lasts less than 2^32 seconds, the difference of two accumulator readings, taken
      modulo 2^256, is exactly the sum of prices times durations; so the mean it gives lies between the
      lowest and the highest price of any interval. */
  lemma OracleMeasuresMean(st: State, steps: seq<Step>, last: nat, zero: bool, low: nat, high: nat)
    requires Valid(st) && LegalRun(st, steps)
    requires st.pair.blockTimestampLast == last % TWO_32
    requires Timely(steps, last, last + TWO_32)
    requires PricesWithin(st, steps, zero, low, high) && high < TWO_224
    ensures var difference := Wrap(Cumulative(After(st, steps).pair, zero) - Cumulative(st.pair, zero));
      var elapsed := LastUpdate(st, steps, last) - last;
      && difference == PriceSeconds(st, steps, last, zero)
      && low * elapsed <= difference <= high * elapsed
  {
    RunAccrues(st, steps, last, last, last + TWO_32, zero);
    PriceSecondsBounded(st, steps, last, last, last + TWO_32, zero, low, high);
    var elapsed, gained := LastUpdate(st, steps, last) - last, PriceSeconds(st, steps, last, zero);
    GainFits(high, elapsed, low, gained);
    var before: int := Cumulative(st.pair, zero);
    WrapAdd(before + gained, -before);
    WrapFits(gained);
  }

  lemma GainFits(high: nat, elapsed: nat, low: nat, gained: int)
    requires high < TWO_224 && elapsed < TWO_32 && low * elapsed <= gained <= high * elapsed
    ensures 0 <= gained < TWO_256
  {
    WordSize();
    MulMonotone(0, low, elapsed);
    MulMonotone(high, TWO_224 - 1, elapsed);
    MulMonotone(elapsed, TWO_32 - 1, TWO_224 - 1);
  }

  /** In a pool with shares every interval of a run has a price, so that mean is one of prices only. */
  lemma SharesMeanPrices(st: State, steps: seq<Step>)
    requires Backed(st) && st.pair.totalSupply > 0 && LegalRun(st, steps)
    ensures Priced(After(st, steps).pair)
  {
    RunKeepsShareValue(st, steps);
    FirstMintHappensOnce(st, steps);
    var supply := After(st, steps).pair.totalSupply;
    MulMonotone(1, supply, supply);
  }

  // ---- in terms of the reserves ----

  /** The reserve that the side `zero` prices, and the one it prices it in. */
  function Quoted(p: Pair, zero: bool): uint112 { if zero then p.reserve1 else p.reserve0 }
  function Base(p: Pair, zero: bool): uint112 { if zero then p.reserve0 else p.reserve1 }

  /** Before every update of the run both reserves are filled, and their ratio lies between
      `lowN / lowD` and `highN / highD`. */
  ghost predicate RatiosWithin(st: State, steps: seq<Step>, zero: bool, lowN: nat, lowD: nat, highN: nat, highD: nat)
    decreases steps
  {
    steps == [] ||
    ((Updates(st, steps[0]) ==>
        && Priced(st.pair)
        && lowN * Base(st.pair, zero) <= Quoted(st.pair, zero) * lowD
        && Quoted(st.pair, zero) * highD <= highN * Base(st.pair, zero))
     && RatiosWithin(Next(st, steps[0]), steps[1..], zero, lowN, lowD, highN, highD))
  }

  /** A floor `price` of `quoted * scale / base` against bounds on `quoted / base`. */
  lemma PriceFromRatio(price: nat, quoted: nat, base: nat, scale: nat, lowN: nat, lowD: nat, highN: nat, highD: nat)
    requires base > 0 && price * base <= quoted * scale < (price + 1) * base
    requires lowN * base <= quoted * lowD && quoted * highD <= highN * base
    ensures lowN * scale <= (price + 1) * lowD
    ensures price * highD <= highN * scale
  {
    ScaleBelow(lowN, base, quoted, lowD, scale, price + 1);
    ScaleBelow(price, base, quoted, scale, highD, highN);
  }

  /** From `a * base <= q * d` and `q * s <= c * base` follows `a * s <= c * d`. */
  lemma ScaleBelow(a: nat, base: nat, q: nat, d: nat, s: nat, c: nat)
    requires base > 0 && a * base <= q * d && q * s <= c * base
    ensures a * s <= c * d
  {
    MulMonotone(a * base, q * d, s);
    MulMonotone(q * s, c * base, d);
    assert a * base * s == a * s * base && q * d * s == q * s * d && c * base * d == c * d * base;
    CancelFactor(a * s, c * d, base);
  }

  /** Two ends of an interval: `price` held for `held`, and what comes after it. */
  lemma RatioInterval(price: nat, held: nat, tail: int, after: nat, low: nat, lowD: nat, high: nat, highD: nat)
    requires low <= (price + 1) * lowD && price * highD <= high
    requires low * after <= (tail + after) * lowD && tail * highD <= high * after
    ensures low * (held + after) <= (price * held + tail + held + after) * lowD
    ensures (price * held + tail) * highD <= high * (held + after)
  {
    MulMonotone(low, (price + 1) * lowD, held);
    MulMonotone(price * highD, high, held);
    assert (price + 1) * lowD * held == (price * held + held) * lowD;
    assert price * highD * held == price * held * highD;
  }

  lemma {:induction false} RatioSeconds(st: State, steps: seq<Step>, last: nat, now: nat, until: nat, zero: bool,
                                        lowN: nat, lowD: nat, highN: nat, highD: nat)
    requires last <= now && Timely(steps, now, until)
    requires RatiosWithin(st, steps, zero, lowN, lowD, highN, highD)
    ensures last <= LastUpdate(st, steps, last)
    ensures var elapsed, seconds := LastUpdate(st, steps, last) - last, PriceSeconds(st, steps, last, zero);
      && lowN * TWO_112 * elapsed <= (seconds + elapsed) * lowD
      && seconds * highD <= highN * TWO_112 * elapsed
    decreases steps
  {
    hide Execute, Next, Price, PowerOfTwo;
    if steps != [] {
      var step, rest := steps[0], Next(st, steps[0]);
      var time := if step.CallStep? then step.env.timestamp else now;
      if Updates(st, step) {
        RatioSeconds(rest, steps[1..], time, time, until, zero, lowN, lowD, highN, highD);
        var price, tail := Price(st.pair, zero), PriceSeconds(rest, steps[1..], time, zero);
        PriceIsRatio(st.pair);
        PriceFromRatio(price, Quoted(st.pair, zero), Base(st.pair, zero), TWO_112, lowN, lowD, highN, highD);
        RatioInterval(price, time - last, tail, LastUpdate(rest, steps[1..], time) - time,
                      lowN * TWO_112, lowD, highN * TWO_112, highD);
      } else {
        RatioSeconds(rest, steps[1..], last, time, until, zero, lowN, lowD, highN, highD);
      }
    }
  }

  lemma {:induction false} PricesFit(st: State, steps: seq<Step>, zero: bool)
    ensures PricesWithin(st, steps, zero, 0, TWO_224 - 1)
    decreases steps
  {
    hide Execute, Next, Price;
    if steps != [] {
      PricesFit(Next(st, steps[0]), steps[1..], zero);
    }
  }

  /** The same without reference to the price: if the ratio of the reserves stays between two fractions,
      so does, up to one unit of 2^-112, the mean that two readings of the accumulator give. */
  lemma OracleMeasuresRatio(st: State, steps: seq<Step>, last: nat, zero: bool,
                            lowN: nat, lowD: nat, highN: nat, highD: nat)
    requires Valid(st) && LegalRun(st, steps)
    requires st.pair.blockTimestampLast == last % TWO_32
    requires Timely(steps, last, last + TWO_32)
    requires RatiosWithin(st, steps, zero, lowN, lowD, highN, highD)
    ensures var difference := Wrap(Cumulative(After(st, steps).pair, zero) - Cumulative(st.pair, zero));
      var elapsed := LastUpdate(st, steps, last) - last;
      && elapsed >= 0
      && lowN * TWO_112 * elapsed <= (difference + elapsed) * lowD
      && difference * highD <= highN * TWO_112 * elapsed
  {
    hide Execute, Next, Price, PowerOfTwo, Valid, LegalRun, RatiosWithin, PricesWithin, Timely, Wrap, Cumulative;
    PricesFit(st, steps, zero);
    OracleMeasuresMean(st, steps, last, zero, 0, TWO_224 - 1);
    RatioSeconds(st, steps, last, last, last + TWO_32, zero, lowN, lowD, highN, highD);
  }
}
