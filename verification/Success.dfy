/** When the calls of the pair succeed: exact conditions on what a caller can read beforehand, in every
    state that a pool can reach. */
module Success {
  import opened Arithmetic
  import opened Evm
  import opened SquareRoot
  import opened PairModel
  import opened PairInvariants
  import opened PoolValue
  import opened ProtocolFee
  import opened Quote
  import opened Receipts

  // ---- sizes ----

  lemma ProductFits112(a: nat, b: nat)
    requires a <= TWO_112 && b <= TWO_112
    ensures 0 <= a * b < TWO_256
  {
    hide PowerOfTwo;
    ProductFits(a, b);
  }

  /** The supply of a backed pool fits 112 bits. */
  lemma SupplyFits(k: nat, supply: nat)
    requires supply * supply <= k && k < TWO_112 * TWO_112
    ensures supply < TWO_112
  {
    SquareReflects(supply, TWO_112);
  }

  lemma PoolKFits(p: Pair)
    ensures PoolK(p) < TWO_112 * TWO_112
  {
    hide PowerOfTwo;
    ProductMonotone(p.reserve0, TWO_112 - 1, p.reserve1, TWO_112 - 1);
  }

  lemma RootFits(k: nat)
    requires k < TWO_112 * TWO_112
    ensures ISqrt(k) < TWO_112
  {
    SquareReflects(ISqrt(k), TWO_112);
  }

  // ---- the protocol's fee ----

  lemma FeeLiquidityFits(supply: uint256, rootK: nat, rootKLast: nat)
    requires supply < TWO_112 && rootKLast < rootK < TWO_112
    ensures FeeLiquidity(supply, rootK, rootKLast).Ok?
    ensures FeeLiquidity(supply, rootK, rootKLast).value <= TWO_112 * TWO_112
  {
    hide PowerOfTwo;
    WordSize();
    ProductFits112(supply, rootK - rootKLast);
    ProductMonotone(supply, TWO_112, rootK - rootKLast, TWO_112);
    DivAtMost(supply * (rootK - rootKLast), rootK * 5 + rootKLast);
  }

  lemma SmallMintSucceeds(p: Pair, to: Address, value: nat)
    requires SharesValid(p) && p.totalSupply < TWO_112 && value <= TWO_112 * TWO_112
    ensures MintShares(p, to, value).Ok?
  {
    hide PowerOfTwo, Sum;
    WordSize();
    SumBounds<Address>(p.balanceOf, to);
  }

  lemma LockKeepsK(p: Pair)
    ensures PoolK(p.(unlocked := false)) == PoolK(p)
  {
    hide PowerOfTwo;
  }

  /** Minting the protocol's fee never makes a call fail, and the supply after it still fits 112 bits. */
  lemma FeeNeverFails(st: State, feeTo: Address)
    requires Backed(st)
    ensures Entered(st, feeTo).Ok?
    ensures Entered(st, feeTo).value.totalSupply < TWO_112
  {
    hide PowerOfTwo, Sum, ISqrt, FeeLiquidity, MintShares, MintFee, PoolK;
    var p0, k := st.pair.(unlocked := false), PoolK(st.pair);
    PoolKFits(st.pair);
    SupplyFits(k, st.pair.totalSupply);
    RootFits(k);
    if feeTo != 0 && p0.kLast != 0 && ISqrt(p0.kLast) < ISqrt(k) {
      FeeLiquidityFits(p0.totalSupply, ISqrt(k), ISqrt(p0.kLast));
      SmallMintSucceeds(p0, feeTo, FeeLiquidity(p0.totalSupply, ISqrt(k), ISqrt(p0.kLast)).value);
    }
    LockKeepsK(st.pair);
    FeeComputes(p0, feeTo, k);
    FeeKeepsSettledValue(st, feeTo);
    SupplyFits(k, Entered(st, feeTo).value.totalSupply);
  }

  lemma FeeComputes(p: Pair, feeTo: Address, k: nat)
    requires k == PoolK(p)
    requires feeTo != 0 && p.kLast != 0 && ISqrt(p.kLast) < ISqrt(k) ==>
      && FeeLiquidity(p.totalSupply, ISqrt(k), ISqrt(p.kLast)).Ok?
      && MintShares(p, feeTo, FeeLiquidity(p.totalSupply, ISqrt(k), ISqrt(p.kLast)).value).Ok?
    ensures MintFee(p, feeTo).Ok?
  {
    hide PowerOfTwo, ISqrt, FeeLiquidity, MintShares;
    ProductFits112(p.reserve0, p.reserve1);
  }

  // ---- mint ----

  lemma SettleSucceeds(p: Pair, balance0: nat, balance1: nat, reserve0: uint112, reserve1: uint112, env: Env)
    requires balance0 < TWO_112 && balance1 < TWO_112
    ensures Settle(p, balance0, balance1, reserve0, reserve1, env).Ok?
  {
    hide PowerOfTwo, Accumulate;
    ProductFits112(balance0, balance1);
  }

  lemma DepositComputes(p: Pair, amount0: nat, amount1: nat)
    requires p.totalSupply > 0 && p.totalSupply < TWO_112 && p.reserve0 > 0 && p.reserve1 > 0
    requires amount0 < TWO_112 && amount1 < TWO_112
    ensures DepositShares(p, amount0, amount1).Ok?
    ensures DepositShares(p, amount0, amount1).value.0 == p
    ensures var credit := DepositShares(p, amount0, amount1).value.1;
      && credit <= TWO_112 * TWO_112
      && (credit > 0 <==> p.reserve0 <= amount0 * p.totalSupply && p.reserve1 <= amount1 * p.totalSupply)
  {
    hide PowerOfTwo, ISqrt;
    ProductFits112(amount0, p.totalSupply);
    ProductFits112(amount1, p.totalSupply);
    ProductMonotone(amount0, TWO_112, p.totalSupply, TWO_112);
    DivAtMost(amount0 * p.totalSupply, p.reserve0);
    FloorPositive(amount0 * p.totalSupply, p.reserve0);
    FloorPositive(amount1 * p.totalSupply, p.reserve1);
  }

  lemma FloorPositive(n: nat, d: nat)
    requires d > 0
    ensures n / d > 0 <==> d <= n
  {
    DivBounds(n, d);
    if n / d > 0 {
      MulMonotone(1, n / d, d);
    }
  }

  /** In every state that a pool with shares can reach, `mint` succeeds if and only if both balances fit 112
      bits and each side of the deposit covers at least one share. */
  lemma LaterMintOutcome(st: State, env: Env, to: Address)
    requires Backed(st) && st.pair.totalSupply > 0
    ensures Entered(st, env.feeTo).Ok?
    ensures var p, supply := st.pair, Entered(st, env.feeTo).value.totalSupply;
      MintCall(st, env, to).Ok? <==>
        && st.Balance0() < TWO_112 && st.Balance1() < TWO_112
        && p.reserve0 <= (st.Balance0() - p.reserve0) * supply
        && p.reserve1 <= (st.Balance1() - p.reserve1) * supply
  {
    hide PowerOfTwo, Sum, ISqrt, MintFee, DepositShares, MintShares, Settle, MintAfterFee;
    FeeNeverFails(st, env.feeTo);
    MintFeeEffect(st.pair.(unlocked := false), env.feeTo);
    var p1 := Entered(st, env.feeTo).value;
    ReservesFilled(st);
    var b0, b1 := st.Balance0(), st.Balance1();
    if MintCall(st, env, to).Ok? {
      MintEffect(st, env, to);
      MintAfterFeeEffect(p1, b0, b1, env, to);
    }
    if b0 < TWO_112 && b1 < TWO_112 {
      var a0, a1 := b0 - p1.reserve0, b1 - p1.reserve1;
      DepositComputes(p1, a0, a1);
      SmallMintSucceeds(p1, to, DepositShares(p1, a0, a1).value.1);
      RestOfMint(p1, b0, b1, env, to);
    }
  }

  lemma ReservesFilled(st: State)
    requires Backed(st) && st.pair.totalSupply > 0
    ensures st.pair.reserve0 > 0 && st.pair.reserve1 > 0
  {
    hide PowerOfTwo, Sum, Valid;
    MulMonotone(1, st.pair.totalSupply, st.pair.totalSupply);
    ZeroProduct(st.pair.reserve0, st.pair.reserve1);
  }

  lemma ZeroProduct(a: nat, b: nat)
    ensures a == 0 || b == 0 ==> a * b == 0
  {
  }

  /** Once the deposit is valued, only a credit of nothing can make `mint` fail. */
  lemma RestOfMint(p: Pair, balance0: nat, balance1: nat, env: Env, to: Address)
    requires p.reserve0 <= balance0 < TWO_112 && p.reserve1 <= balance1 < TWO_112
    requires DepositShares(p, balance0 - p.reserve0, balance1 - p.reserve1).Ok?
    requires var (q, credit) := DepositShares(p, balance0 - p.reserve0, balance1 - p.reserve1).value;
      MintShares(q, to, credit).Ok?
    ensures MintAfterFee(p, balance0, balance1, env, to).Ok?
       <==> DepositShares(p, balance0 - p.reserve0, balance1 - p.reserve1).value.1 > 0
  {
    hide PowerOfTwo, DepositShares, MintShares, Settle;
    var (q, credit) := DepositShares(p, balance0 - p.reserve0, balance1 - p.reserve1).value;
    var minted := MintShares(q, to, credit).value;
    SettleSucceeds(minted, balance0, balance1, q.reserve0, q.reserve1, env);
  }

  lemma FirstDepositComputes(p: Pair, amount0: nat, amount1: nat)
    requires SharesValid(p) && p.totalSupply == 0 && amount0 < TWO_112 && amount1 < TWO_112
    ensures 0 <= amount0 * amount1
    ensures DepositShares(p, amount0, amount1).Ok? <==> MINIMUM_LIQUIDITY <= ISqrt(amount0 * amount1)
    ensures DepositShares(p, amount0, amount1).Ok? ==>
      && DepositShares(p, amount0, amount1).value.1 == ISqrt(amount0 * amount1) - MINIMUM_LIQUIDITY
      && ISqrt(amount0 * amount1) < TWO_112
  {
    hide PowerOfTwo, ISqrt, Sum, MintShares;
    ProductFits112(amount0, amount1);
    ProductMonotone(amount0, TWO_112 - 1, amount1, TWO_112 - 1);
    RootFits(amount0 * amount1);
    SmallMintSucceeds(p, 0, MINIMUM_LIQUIDITY);
  }

  /** The first `mint` succeeds if and only if both balances fit 112 bits and the root of the product of the
      deposits exceeds the locked minimum. */
  lemma FirstMintOutcome(st: State, env: Env, to: Address)
    requires Backed(st) && st.pair.totalSupply == 0
    ensures MintCall(st, env, to).Ok? <==>
      && st.Balance0() < TWO_112 && st.Balance1() < TWO_112
      && 1001 * 1001 <= (st.Balance0() - st.pair.reserve0) * (st.Balance1() - st.pair.reserve1)
  {
    hide PowerOfTwo, Sum, ISqrt, MintFee, DepositShares, MintShares, Settle, MintAfterFee;
    FeeNeverFails(st, env.feeTo);
    MintFeeEffect(st.pair.(unlocked := false), env.feeTo);
    var p1 := Entered(st, env.feeTo).value;
    var b0, b1 := st.Balance0(), st.Balance1();
    var a0, a1 := b0 - p1.reserve0, b1 - p1.reserve1;
    if MintCall(st, env, to).Ok? {
      MintEffect(st, env, to);
      MintAfterFeeEffect(p1, b0, b1, env, to);
    }
    if b0 < TWO_112 && b1 < TWO_112 {
      FirstDepositComputes(p1, a0, a1);
      RootAbove(a0 * a1, 1001);
      if DepositShares(p1, a0, a1).Ok? {
        var (q, credit) := DepositShares(p1, a0, a1).value;
        DepositEffect(p1, a0, a1);
        SmallMintSucceeds(q, to, credit);
        RestOfMint(p1, b0, b1, env, to);
      } else {
        RefusedDeposit(p1, b0, b1, env, to);
      }
    }
  }

  lemma RefusedDeposit(p: Pair, balance0: nat, balance1: nat, env: Env, to: Address)
    requires p.reserve0 <= balance0 && p.reserve1 <= balance1
    requires DepositShares(p, balance0 - p.reserve0, balance1 - p.reserve1).Revert?
    ensures MintAfterFee(p, balance0, balance1, env, to).Revert?
  {
    hide DepositShares, CreditShares;
  }

  lemma RootAbove(y: nat, z: nat)
    ensures z <= ISqrt(y) <==> z * z <= y
  {
    if z <= ISqrt(y) {
      SquareMonotone(z, ISqrt(y));
    } else {
      SquareMonotone(ISqrt(y) + 1, z);
    }
  }

  // ---- burn ----

  lemma ShareAtMost(shares: nat, balance: nat, supply: nat)
    requires shares <= supply && supply > 0
    ensures 0 <= shares * balance && shares * balance / supply <= balance
  {
    MulMonotone(shares, supply, balance);
    MulMonotone(0, shares, balance);
    DivBounds(shares * balance, supply);
    CancelFactor(shares * balance / supply, balance, supply);
  }

  lemma ProRataComputes(shares: nat, balance: nat, supply: nat)
    requires shares <= supply < TWO_112 && supply > 0 && balance < TWO_112
    ensures 0 <= shares * balance
    ensures ProRata(shares, balance, supply) == Ok(shares * balance / supply)
    ensures shares * balance / supply <= balance
    ensures shares * balance / supply > 0 <==> supply <= shares * balance
  {
    hide PowerOfTwo;
    ProductFits112(shares, balance);
    ShareAtMost(shares, balance, supply);
    FloorPositive(shares * balance, supply);
  }

  lemma PayoutSucceeds(st: State, to: Address, amount0: nat, amount1: nat)
    requires st.pair.token0 != st.pair.token1 && amount0 <= st.Balance0() && amount1 <= st.Balance1()
    ensures TokenTransfer(st.tokens, st.pair.token0, st.pair.self, to, amount0).Ok?
    ensures var tokens1 := TokenTransfer(st.tokens, st.pair.token0, st.pair.self, to, amount0).value;
      TokenTransfer(tokens1, st.pair.token1, st.pair.self, to, amount1).Ok?
  {
  }

  /** In every state that a pool with shares can reach and whose balances fit 112 bits, `burn` succeeds if and
      only if the shares sent to the pair are worth at least one unit of each token. */
  lemma BurnOutcome(st: State, env: Env, to: Address)
    requires Backed(st) && st.pair.totalSupply > 0 && st.Balance0() < TWO_112 && st.Balance1() < TWO_112
    ensures Entered(st, env.feeTo).Ok?
    ensures var shares, supply := Get(st.pair.balanceOf, st.pair.self), Entered(st, env.feeTo).value.totalSupply;
      BurnCall(st, env, to).Ok? <==> supply <= shares * st.Balance0() && supply <= shares * st.Balance1()
  {
    hide PowerOfTwo, Sum, ISqrt, MintFee, ProRata, BurnShares, TokenTransfer, Settle;
    FeeNeverFails(st, env.feeTo);
    var p0 := st.pair.(unlocked := false);
    FeeReceipt(p0, env.feeTo);
    MintFeeEffect(p0, env.feeTo);
    var p1 := Entered(st, env.feeTo).value;
    var shares := Get(p0.balanceOf, p0.self);
    SumBounds<Address>(p0.balanceOf, p0.self);
    ProRataComputes(shares, st.Balance0(), p1.totalSupply);
    ProRataComputes(shares, st.Balance1(), p1.totalSupply);
    var amount0, amount1 := ProRata(shares, st.Balance0(), p1.totalSupply).value,
                            ProRata(shares, st.Balance1(), p1.totalSupply).value;
    if amount0 > 0 && amount1 > 0 {
      BurnSharesSucceeds(p1, p0.self, shares);
      PayoutSucceeds(st, to, amount0, amount1);
      PayoutEffect(st.tokens, p0.token0, p0.token1, p0.self, to, amount0, amount1);
      var p2 := BurnShares(p1, p0.self, shares).value;
      var tokens1 := TokenTransfer(st.tokens, p0.token0, p0.self, to, amount0).value;
      var st2 := State(p2, TokenTransfer(tokens1, p0.token1, p0.self, to, amount1).value);
      SettleSucceeds(p2, st2.Balance0(), st2.Balance1(), p0.reserve0, p0.reserve1, env);
    }
  }

  lemma BurnSharesSucceeds(p: Pair, from: Address, value: nat)
    requires value <= Get(p.balanceOf, from) && value <= p.totalSupply
    ensures BurnShares(p, from, value).Ok?
    ensures SameSite(p, BurnShares(p, from, value).value)
  {
    hide PowerOfTwo;
  }

  // ---- skim, sync and flash swaps ----

  /** `skim` never fails, and `sync` only when a balance leaves 112 bits. */
  lemma SkimAndSyncOutcome(st: State, env: Env, to: Address)
    requires Valid(st)
    ensures SkimCall(st, to).Ok?
    ensures SyncCall(st, env).Ok? <==> st.Balance0() < TWO_112 && st.Balance1() < TWO_112
  {
    hide PowerOfTwo, Sum, Accumulate;
  }

  /** What is left of a pair that holds exactly its reserves when `out` of token0 was lent and `paid` of it
      came back. */
  ghost predicate Repaid(st: State, out: nat, paid: nat, tokens: Tokens) {
    && out < st.pair.reserve0
    && Get(tokens, (st.pair.token0, st.pair.self)) == st.pair.reserve0 - out + paid
    && Get(tokens, (st.pair.token1, st.pair.self)) == st.pair.reserve1
  }

  /** A flash loan of one token, repaid in the callback, goes through if and only if what comes back covers
      the loan after the fee of three thousandths; without the callback the same call is refused. */
  lemma FlashLoanOutcome(st: State, env: Env, out: nat, paid: nat, to: Address, tokens: Tokens)
    requires Valid(st) && st.pair.reserve1 > 0 && out > 0
    requires st.Balance0() == st.pair.reserve0 && st.Balance1() == st.pair.reserve1
    requires to != st.pair.token0 && to != st.pair.token1 && to != st.pair.self
    requires Repaid(st, out, paid, tokens) && st.pair.reserve0 - out + paid < TWO_112
    ensures SwapCall(st, env, out, 0, to, [SetTokens(tokens)]).Ok? <==> out * 1000 <= paid * 997
    ensures SwapCall(st, env, out, 0, to, []) == Revert(InsufficientInputAmount)
  {
    hide PowerOfTwo, Sum, CheckK, Accumulate;
    var p0 := st.pair.(unlocked := false);
    var tokens1 := PayOut(st.tokens, p0.token0, p0.self, to, out).value;
    assert PayOut(tokens1, p0.token1, p0.self, to, 0) == Ok(tokens1);
    assert [SetTokens(tokens)][1..] == [];
    assert RunCallee(State(p0, tokens), env, []) == Ok(State(p0, tokens));
    assert RunCallee(State(p0, tokens1), env, [SetTokens(tokens)]) == Ok(State(p0, tokens));
    LoanCheck(p0.reserve0, p0.reserve1, out, paid);
    CheckKMeaning(p0.reserve0 - out, p0.reserve1, p0.reserve0, p0.reserve1, out, 0);
  }

  lemma LoanCheck(reserve0: uint112, reserve1: uint112, out: nat, paid: nat)
    requires out < reserve0 && 0 < out && 0 < reserve1 && reserve0 - out + paid < TWO_112
    ensures CheckK(reserve0 - out + paid, reserve1, reserve0, reserve1, out, 0).Ok? <==> out * 1000 <= paid * 997
  {
    hide PowerOfTwo, CheckK;
    CheckKMeaning(reserve0 - out + paid, reserve1, reserve0, reserve1, out, 0);
    var adjusted := (reserve0 - out + paid) * 1000 - paid * 3;
    assert adjusted * (reserve1 * 1000) == adjusted * reserve1 * 1000;
    assert reserve0 * reserve1 * (1000 * 1000) == reserve0 * 1000 * reserve1 * 1000;
    assert adjusted - reserve0 * 1000 == paid * 997 - out * 1000;
    if out * 1000 <= paid * 997 {
      MulMonotone(reserve0 * 1000, adjusted, reserve1);
    } else {
      MulMonotone(adjusted + 1, reserve0 * 1000, reserve1);
    }
  }
}
