/** The protocol's fee: shares worth one sixth of the growth of sqrt(k), never more than the growth
    pays for, so that over a whole run of the pool no holder is diluted. */
module ProtocolFee {
  import opened Arithmetic
  import opened Evm
  import opened SquareRoot
  import opened PairModel
  import opened PairInvariants
  import opened PoolValue

  // ---- arithmetic ----

  /** The floor in the fee formula, without the division. */
  lemma FeeFloor(supply: uint256, rootK: nat, rootKLast: nat)
    requires rootKLast < rootK && FeeLiquidity(supply, rootK, rootKLast).Ok?
    ensures var liquidity := FeeLiquidity(supply, rootK, rootKLast).value;
      liquidity * (rootK * 5 + rootKLast) <= supply * (rootK - rootKLast) < (liquidity + 1) * (rootK * 5 + rootKLast)
  {
    DivBounds(supply * (rootK - rootKLast), rootK * 5 + rootKLast);
  }

  lemma FeeFromFloor(supply: nat, rootK: nat, rootKLast: nat, liquidity: nat)
    requires rootKLast < rootK
    requires liquidity * (rootK * 5 + rootKLast) <= supply * (rootK - rootKLast)
        < (liquidity + 1) * (rootK * 5 + rootKLast)
    ensures liquidity * (rootK * 6) <= (supply + liquidity) * (rootK - rootKLast)
    ensures (supply + liquidity + 1) * (rootK - rootKLast) < (liquidity + 1) * (rootK * 6)
    ensures rootKLast * (supply + liquidity) <= rootK * supply
    ensures (supply + liquidity) * (rootK * 5 + rootKLast) <= supply * (rootK * 6)
  {
    assert liquidity * (rootK * 6) == liquidity * (rootK * 5 + rootKLast) + liquidity * (rootK - rootKLast);
    assert (liquidity + 1) * (rootK * 6)
        == (liquidity + 1) * (rootK * 5 + rootKLast) + (liquidity + 1) * (rootK - rootKLast);
    assert supply * (rootK * 6) == supply * (rootK * 5 + rootKLast) + supply * (rootK - rootKLast);
    assert liquidity * rootKLast <= liquidity * (rootK * 5 + rootKLast) by {
      MulMonotone(rootKLast, rootK * 5 + rootKLast, liquidity);
    }
    assert supply * (rootK - rootKLast) == supply * rootK - supply * rootKLast;
  }

  /** The fee is the largest number of shares that is at most one sixth of the growth of sqrt(k),
      taken out of the enlarged supply, and holders keep at least the value they had. */
  lemma FeeIsOneSixthOfGrowth(p: Pair, feeTo: Address)
    requires MintFee(p, feeTo).Ok? && feeTo != 0 && p.kLast != 0
    ensures var rootK, rootKLast := ISqrt(PoolK(p)), ISqrt(p.kLast);
      var supply := MintFee(p, feeTo).value.totalSupply;
      var liquidity := supply - p.totalSupply;
      && liquidity >= 0
      && (rootK <= rootKLast ==> liquidity == 0)
      && (rootKLast < rootK ==>
            && liquidity * (rootK * 6) <= supply * (rootK - rootKLast)
            && (supply + 1) * (rootK - rootKLast) < (liquidity + 1) * (rootK * 6)
            && rootKLast * supply <= rootK * p.totalSupply)
  {
    hide PowerOfTwo;
    var rootK, rootKLast := ISqrt(PoolK(p)), ISqrt(p.kLast);
    if rootKLast < rootK {
      FeeFloor(p.totalSupply, rootK, rootKLast);
      FeeFromFloor(p.totalSupply, rootK, rootKLast, FeeLiquidity(p.totalSupply, rootK, rootKLast).value);
    }
  }

  /** After the fee the supply is still at most sqrt(k), rounded down. */
  lemma FeeStaysWithinRoot(supply: nat, total: nat, rootK: nat, rootKLast: nat)
    requires rootKLast < rootK && supply <= rootKLast
    requires total * (rootK * 5 + rootKLast) <= supply * (rootK * 6)
    ensures total <= rootK
  {
    var weight := rootK * 5 + rootKLast;
    MulMonotone(supply * 6, weight, rootK);
    assert supply * (rootK * 6) == supply * 6 * rootK;
    assert rootK * weight == weight * rootK;
    CancelFactor(total, rootK, weight);
  }

  /** When the rounded root grew by two or more, the growth pays for the fee. */
  lemma LargeGrowthPays(supply: nat, total: nat, rootK: nat, rootKLast: nat)
    requires rootKLast + 2 <= rootK
    requires total * (rootK * 5 + rootKLast) <= supply * (rootK * 6)
    ensures (rootKLast + 1) * total <= rootK * supply
  {
    MulMonotone((rootKLast + 1) * 6, rootK * 5 + rootKLast, total);
    assert (rootKLast + 1) * 6 * total == (rootKLast + 1) * total * 6;
    assert supply * (rootK * 6) == rootK * supply * 6;
  }

  /** When it grew by one, a pool backed by a unit of sqrt(k) a share mints no fee at all. */
  lemma SmallGrowthIsFree(supply: nat, liquidity: nat, rootK: nat, rootKLast: nat)
    requires rootKLast + 1 == rootK && supply <= rootKLast
    requires liquidity * (rootK * 5 + rootKLast) <= supply * (rootK - rootKLast)
    ensures liquidity == 0
  {
    if liquidity > 0 {
      MulMonotone(1, liquidity, rootK * 5 + rootKLast);
    }
  }

  /** In a pool backed by a unit of sqrt(k) a share, the fee takes no more than the growth of k,
      exactly, although both roots are rounded; and the pool stays backed. */
  lemma FeeKeepsBacking(k: nat, kLast: nat, supply: nat, liquidity: nat, rootK: nat, rootKLast: nat)
    requires kLast <= k && rootK * rootK <= k && kLast < (rootKLast + 1) * (rootKLast + 1)
    requires supply <= rootKLast < rootK
    requires liquidity * (rootK * 5 + rootKLast) <= supply * (rootK - rootKLast)
        < (liquidity + 1) * (rootK * 5 + rootKLast)
    ensures NoLessPerShare(kLast, supply, k, supply + liquidity)
    ensures (supply + liquidity) * (supply + liquidity) <= k
  {
    hide NoLessPerShare;
    FeeFromFloor(supply, rootK, rootKLast, liquidity);
    FeeStaysWithinRoot(supply, supply + liquidity, rootK, rootKLast);
    SquareMonotone(supply + liquidity, rootK);
    if rootK == rootKLast + 1 {
      SmallGrowthIsFree(supply, liquidity, rootK, rootKLast);
      PerShareGrows(kLast, k, supply);
    } else {
      LargeGrowthPays(supply, supply + liquidity, rootK, rootKLast);
      PerShareFromRoots(k, kLast, supply, supply + liquidity, rootK, rootKLast + 1);
    }
  }

  /** The same with the roots and the fee as `_mintFee` computes them. */
  lemma FeeDueKeepsValue(k: nat, kLast: nat, supply: uint256)
    requires supply * supply <= kLast <= k && ISqrt(kLast) < ISqrt(k)
    requires FeeLiquidity(supply, ISqrt(k), ISqrt(kLast)).Ok?
    ensures var total := supply + FeeLiquidity(supply, ISqrt(k), ISqrt(kLast)).value;
      NoLessPerShare(kLast, supply, k, total) && total * total <= k
  {
    hide NoLessPerShare, FeeLiquidity, PowerOfTwo;
    var rootK, rootKLast := ISqrt(k), ISqrt(kLast);
    FeeFloor(supply, rootK, rootKLast);
    SquareReflects(supply, rootKLast + 1);
    FeeKeepsBacking(k, kLast, supply, FeeLiquidity(supply, rootK, rootKLast).value, rootK, rootKLast);
  }

  lemma PerShareFromRoots(k: nat, kLast: nat, supply: nat, total: nat, root: nat, rootLast: nat)
    requires root * root <= k && kLast <= rootLast * rootLast && rootLast * total <= root * supply
    ensures NoLessPerShare(kLast, supply, k, total)
  {
    PerShareFromReserves(rootLast, rootLast, supply, root, root, total);
    MulMonotone(kLast, rootLast * rootLast, total * total);
    MulMonotone(root * root, k, supply * supply);
  }

  /** A pool whose k per share does not fall stays backed. */
  lemma BackingCarries(k0: nat, s0: nat, k1: nat, s1: nat)
    requires NoLessPerShare(k0, s0, k1, s1) && s0 * s0 <= k0 && k0 > 0
    ensures s1 * s1 <= k1
  {
    MulMonotone(s0 * s0, k0, k1);
    CancelFactor(s1 * s1, k1, k0);
  }

  // ---- runs ----

  /** Every share is backed by a unit of sqrt(k), also at the last event that recorded k. */
  ghost predicate Backed(st: State) {
    var p := st.pair;
    && Valid(st)
    && p.totalSupply * p.totalSupply <= PoolK(p)
    && (p.kLast != 0 ==> p.totalSupply * p.totalSupply <= p.kLast <= PoolK(p))
  }

  /** The k that belongs to the shareholders: growth since `kLast` is still to be shared with the
      protocol. */
  function SettledK(p: Pair): nat {
    if p.kLast != 0 then p.kLast else PoolK(p)
  }

  predicate FeeDue(p: Pair, feeTo: Address, k: nat) {
    feeTo != 0 && p.kLast != 0 && ISqrt(p.kLast) < ISqrt(k)
  }

  lemma MintFeeSupply(p: Pair, feeTo: Address, k: nat)
    requires MintFee(p, feeTo).Ok? && k == PoolK(p)
    ensures FeeDue(p, feeTo, k) ==> FeeLiquidity(p.totalSupply, ISqrt(k), ISqrt(p.kLast)).Ok?
    ensures MintFee(p, feeTo).value.totalSupply ==
      p.totalSupply + if FeeDue(p, feeTo, k) then FeeLiquidity(p.totalSupply, ISqrt(k), ISqrt(p.kLast)).value else 0
  {
    assert SafeMul(p.reserve0, p.reserve1) == Ok(k) || SafeMul(p.reserve0, p.reserve1).Revert?;
  }

  lemma FeeKeepsSettledValue(st: State, feeTo: Address)
    requires Backed(st) && Entered(st, feeTo).Ok?
    ensures var p, p1 := st.pair, Entered(st, feeTo).value;
      && NoLessPerShare(SettledK(p), p.totalSupply, PoolK(p), p1.totalSupply)
      && p1.totalSupply * p1.totalSupply <= PoolK(p)
  {
    hide NoLessPerShare, FeeLiquidity, MintFee, PowerOfTwo, Sum;
    var p, k := st.pair, PoolK(st.pair);
    MintFeeSupply(p.(unlocked := false), feeTo, k);
    if FeeDue(p, feeTo, k) {
      FeeDueKeepsValue(k, p.kLast, p.totalSupply);
    } else {
      PerShareGrows(SettledK(p), k, p.totalSupply);
    }
  }

  lemma FirstDepositIsBacked(p: Pair, amount0: nat, amount1: nat)
    requires p.totalSupply == 0 && DepositShares(p, amount0, amount1).Ok?
    ensures var supply := DepositShares(p, amount0, amount1).value.1 + MINIMUM_LIQUIDITY;
      supply == ISqrt(amount0 * amount1) && supply * supply <= amount0 * amount1
  {
  }

  lemma FirstMintIsBacked(p: Pair, balance0: nat, balance1: nat, env: Env, to: Address)
    requires p.reserve0 <= balance0 && p.reserve1 <= balance1
    requires SharesValid(p) && p.totalSupply == 0 && MintAfterFee(p, balance0, balance1, env, to).Ok?
    ensures var q := MintAfterFee(p, balance0, balance1, env, to).value.0;
      q.totalSupply * q.totalSupply <= PoolK(q)
  {
    hide PowerOfTwo, Sum;
    MintAfterFeeEffect(p, balance0, balance1, env, to);
    var amount0, amount1 := balance0 - p.reserve0, balance1 - p.reserve1;
    FirstDepositIsBacked(p, amount0, amount1);
    ProductMonotone(amount0, balance0, amount1, balance1);
  }

  lemma MintKeepsBacked(st: State, env: Env, to: Address)
    requires Backed(st) && MintCall(st, env, to).Ok?
    ensures var st' := MintCall(st, env, to).value.0;
      && Backed(st')
      && (st.pair.totalSupply > 0 ==>
            NoLessPerShare(SettledK(st.pair), st.pair.totalSupply, SettledK(st'.pair), st'.pair.totalSupply))
  {
    MintEffect(st, env, to);
    MintFeeEffect(st.pair.(unlocked := false), env.feeTo);
    var p, p1 := st.pair, Entered(st, env.feeTo).value;
    var q := MintCall(st, env, to).value.0.pair;
    if p.totalSupply == 0 {
      FirstMintIsBacked(p1, st.Balance0(), st.Balance1(), env, to);
    } else {
      FeeKeepsSettledValue(st, env.feeTo);
      MintKeepsValue(st, env, to);
      BackingCarries(PoolK(p), p1.totalSupply, PoolK(q), q.totalSupply);
      PerShareTransitive(SettledK(p), p.totalSupply, PoolK(p), p1.totalSupply, PoolK(q), q.totalSupply);
    }
  }

  lemma BurnKeepsBacked(st: State, env: Env, to: Address)
    requires Backed(st) && BurnCall(st, env, to).Ok?
    ensures var st' := BurnCall(st, env, to).value.0;
      && Backed(st')
      && NoLessPerShare(SettledK(st.pair), st.pair.totalSupply, SettledK(st'.pair), st'.pair.totalSupply)
  {
    BurnEffect(st, env, to);
    MintFeeEffect(st.pair.(unlocked := false), env.feeTo);
    var p, p1 := st.pair, Entered(st, env.feeTo).value;
    var q := BurnCall(st, env, to).value.0.pair;
    MulMonotone(1, p1.totalSupply, p1.totalSupply);
    FeeKeepsSettledValue(st, env.feeTo);
    BurnKeepsValue(st, env, to);
    BackingCarries(PoolK(p), p1.totalSupply, PoolK(q), q.totalSupply);
    PerShareTransitive(SettledK(p), p.totalSupply, PoolK(p), p1.totalSupply, PoolK(q), q.totalSupply);
  }

  lemma StepKeepsBacked(st: State, step: Step)
    requires Backed(st) && Legal(st, step)
    ensures var st' := Next(st, step);
      && Backed(st')
      && (st.pair.totalSupply > 0 ==>
            NoLessPerShare(SettledK(st.pair), st.pair.totalSupply, SettledK(st'.pair), st'.pair.totalSupply))
  {
    StepKeepsValid(st, step);
    if step.CallStep? && Execute(st, step.env, step.call).Ok? {
      match step.call {
        case Mint(to) => MintKeepsBacked(st, step.env, to);
        case Burn(to) => BurnKeepsBacked(st, step.env, to);
        case _ =>
          OtherCallsKeepK(st, step.env, step.call);
          PerShareGrows(SettledK(st.pair), SettledK(Next(st, step).pair), st.pair.totalSupply);
      }
    }
  }

  lemma InitialIsBacked(self: Account, token0: Address, token1: Address, tokens: Tokens)
    requires token0 != token1
    ensures Backed(State(InitialPair(self, token0, token1), tokens))
  {
    InitialIsValid(self, token0, token1, tokens);
  }

  /** Over any run, with the protocol's fee on, off or switched at will, the value of a share never
      falls, and the whole pool is worth at least what belongs to the shareholders. */
  lemma {:induction false} RunKeepsShareValue(st: State, steps: seq<Step>)
    requires Backed(st) && LegalRun(st, steps)
    ensures var st' := After(st, steps);
      && Backed(st')
      && SettledK(st'.pair) <= PoolK(st'.pair)
      && (st.pair.totalSupply > 0 ==>
            NoLessPerShare(SettledK(st.pair), st.pair.totalSupply, SettledK(st'.pair), st'.pair.totalSupply))
    decreases steps
  {
    if steps != [] {
      var mid := Next(st, steps[0]);
      StepKeepsBacked(st, steps[0]);
      RunKeepsShareValue(mid, steps[1..]);
      if st.pair.totalSupply > 0 {
        FirstMintHappensOnce(st, [steps[0]]);
        assert After(st, [steps[0]]) == mid;
        var p, q, r := st.pair, mid.pair, After(st, steps).pair;
        PerShareTransitive(SettledK(p), p.totalSupply, SettledK(q), q.totalSupply, SettledK(r), r.totalSupply);
      }
    }
  }

  // ---- swaps alone ----

  ghost predicate NoMintOrBurn(steps: seq<Step>) {
    forall i :: 0 <= i < |steps| && steps[i].CallStep? ==> !steps[i].call.Mint? && !steps[i].call.Burn?
  }

  /** A successful swap somewhere in the run. */
  ghost predicate SomeSwapSucceeds(st: State, steps: seq<Step>)
    decreases steps
  {
    steps != [] &&
    ((steps[0].CallStep? && steps[0].call.Swap? && Execute(st, steps[0].env, steps[0].call).Ok?)
     || SomeSwapSucceeds(Next(st, steps[0]), steps[1..]))
  }

  lemma {:induction false} RunWithoutLiquidityGrowsK(st: State, steps: seq<Step>)
    requires Valid(st) && LegalRun(st, steps) && NoMintOrBurn(steps)
    ensures PoolK(st.pair) <= PoolK(After(st, steps).pair)
    ensures SomeSwapSucceeds(st, steps) ==> PoolK(st.pair) < PoolK(After(st, steps).pair)
    decreases steps
  {
    if steps != [] {
      StepKeepsValid(st, steps[0]);
      if steps[0].CallStep? {
        var env, call := steps[0].env, steps[0].call;
        OtherCallsKeepK(st, env, call);
        if call.Swap? && Execute(st, env, call).Ok? {
          SwapGrowsK(st, env, call.amount0Out, call.amount1Out, call.to, call.callback);
        }
      }
      RunWithoutLiquidityGrowsK(Next(st, steps[0]), steps[1..]);
    }
  }

  /** No run of swaps, however interleaved with syncs, skims and transfers, takes from both sides. */
  lemma SwapsCannotDrainBothSides(st: State, steps: seq<Step>)
    requires Valid(st) && LegalRun(st, steps) && NoMintOrBurn(steps) && SomeSwapSucceeds(st, steps)
    ensures var p, q := st.pair, After(st, steps).pair;
      q.reserve0 > p.reserve0 || q.reserve1 > p.reserve1
  {
    var p, q := st.pair, After(st, steps).pair;
    RunWithoutLiquidityGrowsK(st, steps);
    if q.reserve0 <= p.reserve0 && q.reserve1 <= p.reserve1 {
      ProductMonotone(q.reserve0, p.reserve0, q.reserve1, p.reserve1);
    }
  }
}
