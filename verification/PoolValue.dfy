/** The value behind a share: reserve0 * reserve1 measured against the square of the supply. No
    call lowers it, in spite of rounding, flash swaps and the protocol's fee. */
module PoolValue {
  import opened Arithmetic
  import opened Evm
  import opened SquareRoot
  import opened PairModel
  import opened PairInvariants

  /** k / supply^2 is no smaller for (k1, s1) than for (k0, s0). */
  ghost predicate NoLessPerShare(k0: nat, s0: nat, k1: nat, s1: nat) {
    k0 * (s1 * s1) <= k1 * (s0 * s0)
  }

  // ---- arithmetic ----

  lemma PerShareTransitive(k0: nat, s0: nat, k1: nat, s1: nat, k2: nat, s2: nat)
    requires NoLessPerShare(k0, s0, k1, s1) && NoLessPerShare(k1, s1, k2, s2) && s1 > 0
    ensures NoLessPerShare(k0, s0, k2, s2)
  {
    var q0, q1, q2 := s0 * s0, s1 * s1, s2 * s2;
    assert q1 > 0;
    MulMonotone(k0 * q1, k1 * q0, q2);
    MulMonotone(k1 * q2, k2 * q1, q0);
    assert k0 * q2 * q1 == k0 * q1 * q2;
    assert k1 * q0 * q2 == k1 * q2 * q0;
    assert k2 * q1 * q0 == k2 * q0 * q1;
    CancelFactor(k0 * q2, k2 * q0, q1);
  }

  lemma PerShareGrows(k0: nat, k1: nat, s: nat)
    requires k0 <= k1
    ensures NoLessPerShare(k0, s, k1, s)
  {
    MulMonotone(k0, k1, s * s);
  }

  /** Reserves that shrink no faster than the supply. */
  lemma PerShareFromReserves(r0: nat, r1: nat, s: nat, b0: nat, b1: nat, t: nat)
    requires r0 * t <= b0 * s && r1 * t <= b1 * s
    ensures NoLessPerShare(r0 * r1, s, b0 * b1, t)
  {
    ProductMonotone(r0 * t, b0 * s, r1 * t, b1 * s);
    assert (r0 * t) * (r1 * t) == r0 * r1 * (t * t);
    assert (b0 * s) * (b1 * s) == b0 * b1 * (s * s);
  }

  /** A deposit credited at most its share of one reserve. */
  lemma DepositedSide(reserve: nat, amount: nat, supply: nat, liquidity: nat)
    requires reserve > 0 && liquidity <= amount * supply / reserve
    ensures reserve * (supply + liquidity) <= (reserve + amount) * supply
  {
    DivBounds(amount * supply, reserve);
    MulMonotone(liquidity, amount * supply / reserve, reserve);
  }

  /** A withdrawal that takes at most its share of one balance. */
  lemma WithdrawnSide(reserve: nat, balance: nat, supply: nat, shares: nat, amount: nat, left: nat)
    requires supply > 0 && shares <= supply && reserve <= balance
    requires amount == shares * balance / supply && balance - amount <= left
    ensures reserve * (supply - shares) <= left * supply
  {
    DivBounds(shares * balance, supply);
    MulMonotone(balance - amount, left, supply);
    MulMonotone(reserve, balance, supply - shares);
    assert (balance - amount) * supply == balance * supply - amount * supply;
    assert balance * (supply - shares) == balance * supply - shares * balance;
  }

  lemma DepositValue(r0: nat, r1: nat, amount0: nat, amount1: nat, supply: nat, liquidity: nat)
    requires r0 > 0 && liquidity <= amount0 * supply / r0
    requires r1 > 0 && liquidity <= amount1 * supply / r1
    ensures NoLessPerShare(r0 * r1, supply, (r0 + amount0) * (r1 + amount1), supply + liquidity)
  {
    DepositedSide(r0, amount0, supply, liquidity);
    DepositedSide(r1, amount1, supply, liquidity);
    PerShareFromReserves(r0, r1, supply, r0 + amount0, r1 + amount1, supply + liquidity);
  }

  lemma WithdrawalValue(r0: nat, r1: nat, b0: nat, b1: nat, supply: nat, shares: nat,
                        amount0: nat, amount1: nat, left0: nat, left1: nat)
    requires supply > 0 && shares <= supply && r0 <= b0 && r1 <= b1
    requires amount0 == shares * b0 / supply && b0 - amount0 <= left0
    requires amount1 == shares * b1 / supply && b1 - amount1 <= left1
    ensures NoLessPerShare(r0 * r1, supply, left0 * left1, supply - shares)
  {
    WithdrawnSide(r0, b0, supply, shares, amount0, left0);
    WithdrawnSide(r1, b1, supply, shares, amount1, left1);
    PerShareFromReserves(r0, r1, supply, left0, left1, supply - shares);
  }

  /** A product of two balances, each less three thousandths of what came in, that still covers
      the old product, when something came in. */
  lemma FeeMakesKGrow(balance0: nat, balance1: nat, k: nat, adjusted0: nat, adjusted1: nat)
    requires adjusted0 <= balance0 * 1000 && adjusted1 <= balance1 * 1000
    requires adjusted0 < balance0 * 1000 || adjusted1 < balance1 * 1000
    requires 0 < k * (1000 * 1000) <= adjusted0 * adjusted1
    ensures k < balance0 * balance1
  {
    var full0, full1 := balance0 * 1000, balance1 * 1000;
    assert adjusted0 > 0 && adjusted1 > 0;
    if adjusted0 < full0 {
      MulMonotone(adjusted0 + 1, full0, adjusted1);
      MulMonotone(adjusted1, full1, full0);
    } else {
      MulMonotone(adjusted0, full0, adjusted1);
      MulMonotone(adjusted1 + 1, full1, full0);
    }
    assert full0 * full1 == balance0 * balance1 * (1000 * 1000);
  }

  // ---- single calls ----

  /** The K check lets only swaps through that strictly increase the product of the reserves. */
  lemma CheckKGrows(balance0: nat, balance1: nat, reserve0: uint112, reserve1: uint112, amount0Out: nat,
                    amount1Out: nat)
    requires amount0Out < reserve0 && amount1Out < reserve1
    requires CheckK(balance0, balance1, reserve0, reserve1, amount0Out, amount1Out).Ok?
    ensures reserve0 * reserve1 < balance0 * balance1
  {
    var amount0In := AmountIn(balance0, reserve0, amount0Out);
    var amount1In := AmountIn(balance1, reserve1, amount1Out);
    var adjusted0 := Adjusted(balance0, amount0In).value;
    var adjusted1 := Adjusted(balance1, amount1In).value;
    MulMonotone(1, reserve0, reserve1);
    FeeMakesKGrow(balance0, balance1, reserve0 * reserve1, adjusted0, adjusted1);
  }

  /** Every successful swap strictly increases k, whatever the callee did. */
  lemma SwapGrowsK(st: State, env: Env, amount0Out: nat, amount1Out: nat, to: Address, callback: seq<CalleeAction>)
    requires Valid(st) && SwapCall(st, env, amount0Out, amount1Out, to, callback).Ok?
    ensures PoolK(st.pair) < PoolK(SwapCall(st, env, amount0Out, amount1Out, to, callback).value.pair)
  {
    SwapEffect(st, env, amount0Out, amount1Out, to, callback);
    var p, q := st.pair, SwapCall(st, env, amount0Out, amount1Out, to, callback).value.pair;
    CheckKGrows(q.reserve0, q.reserve1, p.reserve0, p.reserve1, amount0Out, amount1Out);
  }

  /** The supply that the rest of a call works with: the fee, if any, has been minted. */
  function SupplyAfterFee(st: State, env: Env, call: Call): nat {
    if (call.Mint? || call.Burn?) && Entered(st, env.feeTo).Ok? then Entered(st, env.feeTo).value.totalSupply
    else st.pair.totalSupply
  }

  /** A later deposit is credited the smaller of its shares of the two reserves. */
  lemma DepositCredit(p: Pair, amount0: nat, amount1: nat)
    requires p.totalSupply > 0 && DepositShares(p, amount0, amount1).Ok?
    ensures p.reserve0 > 0 && p.reserve1 > 0
    ensures var liquidity := DepositShares(p, amount0, amount1).value.1;
      && liquidity <= amount0 * p.totalSupply / p.reserve0
      && liquidity <= amount1 * p.totalSupply / p.reserve1
  {
  }

  lemma DepositKeepsValue(p: Pair, amount0: nat, amount1: nat)
    requires p.totalSupply > 0 && DepositShares(p, amount0, amount1).Ok?
    ensures var liquidity := DepositShares(p, amount0, amount1).value.1;
      PoolK(p) > 0
      && NoLessPerShare(PoolK(p), p.totalSupply, (p.reserve0 + amount0) * (p.reserve1 + amount1),
                        p.totalSupply + liquidity)
  {
    hide DepositShares, NoLessPerShare;
    DepositCredit(p, amount0, amount1);
    MulMonotone(1, p.reserve0, p.reserve1);
    DepositValue(p.reserve0, p.reserve1, amount0, amount1, p.totalSupply, DepositShares(p, amount0, amount1).value.1);
  }

  lemma MintKeepsValue(st: State, env: Env, to: Address)
    requires Valid(st) && MintCall(st, env, to).Ok?
    requires st.pair.totalSupply > 0
    ensures var q := MintCall(st, env, to).value.0.pair;
      && PoolK(st.pair) > 0
      && NoLessPerShare(PoolK(st.pair), SupplyAfterFee(st, env, Mint(to)), PoolK(q), q.totalSupply)
  {
    hide MintFee, MintAfterFee, DepositShares, NoLessPerShare, MintCall, PowerOfTwo, Sum, ISqrt;
    MintEffect(st, env, to);
    MintFeeEffect(st.pair.(unlocked := false), env.feeTo);
    var p1 := Entered(st, env.feeTo).value;
    MintAfterFeeEffect(p1, st.Balance0(), st.Balance1(), env, to);
    DepositKeepsValue(p1, st.Balance0() - p1.reserve0, st.Balance1() - p1.reserve1);
  }

  lemma BurnKeepsValue(st: State, env: Env, to: Address)
    requires Valid(st) && BurnCall(st, env, to).Ok?
    ensures var q := BurnCall(st, env, to).value.0.pair;
      NoLessPerShare(PoolK(st.pair), SupplyAfterFee(st, env, Burn(to)), PoolK(q), q.totalSupply)
  {
    hide NoLessPerShare, BurnCall, MintFee, PowerOfTwo, Sum, ISqrt;
    BurnEffect(st, env, to);
    MintFeeEffect(st.pair.(unlocked := false), env.feeTo);
    SumBounds<Address>(Entered(st, env.feeTo).value.balanceOf, st.pair.self);
    var p, p1 := st.pair, Entered(st, env.feeTo).value;
    var (st', (amount0, amount1)) := BurnCall(st, env, to).value;
    WithdrawalValue(p.reserve0, p.reserve1, st.Balance0(), st.Balance1(), p1.totalSupply, Get(p.balanceOf, p.self),
                    amount0, amount1, st'.pair.reserve0, st'.pair.reserve1);
  }

  /** Calls other than `mint` and `burn` leave the supply alone and never lower k. */
  lemma OtherCallsKeepK(st: State, env: Env, call: Call)
    requires Valid(st) && !call.Mint? && !call.Burn?
    ensures var q := Try(st, env, call).pair;
      PoolK(st.pair) <= PoolK(q) && q.totalSupply == st.pair.totalSupply && q.kLast == st.pair.kLast
  {
    if Execute(st, env, call).Ok? {
      match call {
        case Swap(amount0Out, amount1Out, to, callback) =>
          SwapEffect(st, env, amount0Out, amount1Out, to, callback);
          SwapGrowsK(st, env, amount0Out, amount1Out, to, callback);
        case Skim(to) => SkimEffect(st, to);
        case Sync =>
          SyncEffect(st, env);
          ProductMonotone(st.pair.reserve0, st.Balance0(), st.pair.reserve1, st.Balance1());
        case _ => ShareCallKeeps(st, env, call);
      }
    }
  }

  /** No call after the first mint lowers k per share, counting the supply after the fee. */
  lemma CallKeepsValue(st: State, env: Env, call: Call)
    requires Valid(st) && st.pair.totalSupply > 0 && Execute(st, env, call).Ok?
    ensures var q := Try(st, env, call).pair;
      NoLessPerShare(PoolK(st.pair), SupplyAfterFee(st, env, call), PoolK(q), q.totalSupply)
  {
    match call {
      case Mint(to) => MintKeepsValue(st, env, to);
      case Burn(to) => BurnKeepsValue(st, env, to);
      case _ =>
        OtherCallsKeepK(st, env, call);
        PerShareGrows(PoolK(st.pair), PoolK(Try(st, env, call).pair), st.pair.totalSupply);
    }
  }
}
