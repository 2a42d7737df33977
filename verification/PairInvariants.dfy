/** What every run of the pair keeps: the accounting of shares, the locked minimum and the cover of the
    reserves. */
module PairInvariants {
  import opened Arithmetic
  import opened Evm
  import opened SquareRoot
  import opened PairModel

  // ---- runs ----

  /** A step of a run: a call to the pair, which may revert, or token transfers that do not
      involve it as a sender (only the pair can spend what the pair holds). */
  datatype Step =
    | CallStep(env: Env, call: Call)
    | TokenStep(tokens: Tokens)

  function Next(st: State, step: Step): State {
    match step
    case CallStep(env, call) => Try(st, env, call)
    case TokenStep(tokens) => st.(tokens := tokens)
  }

  ghost predicate Legal(st: State, step: Step) {
    step.TokenStep? ==>
      && Get(step.tokens, (st.pair.token0, st.pair.self)) >= st.Balance0()
      && Get(step.tokens, (st.pair.token1, st.pair.self)) >= st.Balance1()
  }

  function After(st: State, steps: seq<Step>): State
    decreases steps
  {
    if steps == [] then st else After(Next(st, steps[0]), steps[1..])
  }

  ghost predicate LegalRun(st: State, steps: seq<Step>)
    decreases steps
  {
    steps == [] || (Legal(st, steps[0]) && LegalRun(Next(st, steps[0]), steps[1..]))
  }

  // ---- the invariant ----

  ghost predicate NoZeroApproval(p: Pair) {
    forall spender: Address :: Get(p.allowance, (0, spender)) == 0
  }

  /** Shares add up, the first thousand are locked, and nobody may spend for the zero address. */
  ghost predicate SharesValid(p: Pair) {
    && Sum(p.balanceOf) == p.totalSupply
    && (p.totalSupply == 0 || Get(p.balanceOf, 0) >= MINIMUM_LIQUIDITY)
    && NoZeroApproval(p)
  }

  /** What holds between transactions. */
  ghost predicate Valid(st: State) {
    && st.pair.unlocked
    && st.pair.token0 != st.pair.token1
    && SharesValid(st.pair)
    && st.pair.reserve0 <= st.Balance0()
    && st.pair.reserve1 <= st.Balance1()
  }

  function PoolK(p: Pair): nat {
    ProductMonotone(0, p.reserve0, 0, p.reserve1);
    p.reserve0 * p.reserve1
  }

  /** `q` has the same immutable addresses as `p`. */
  ghost predicate SameSite(p: Pair, q: Pair) {
    q.self == p.self && q.token0 == p.token0 && q.token1 == p.token1
  }

  lemma InitialIsValid(self: Account, token0: Address, token1: Address, tokens: Tokens)
    requires token0 != token1
    ensures Valid(State(InitialPair(self, token0, token1), tokens))
    ensures var p := InitialPair(self, token0, token1);
      && p.reserve0 == p.reserve1 == p.totalSupply == p.kLast == p.blockTimestampLast == 0
      && p.price0CumulativeLast == p.price1CumulativeLast == 0
      && p.balanceOf == map[] && p.allowance == map[]
  {
    assert Sum<Address>(map[]) == 0;
  }

  // ---- shares ----

  lemma MintSharesValid(p: Pair, to: Address, value: nat)
    requires SharesValid(p) && MintShares(p, to, value).Ok?
    requires p.totalSupply == 0 ==> value == 0 || (to == 0 && value >= MINIMUM_LIQUIDITY)
    ensures SharesValid(MintShares(p, to, value).value)
  {
    SumUpdate<Address>(p.balanceOf, to, Get(p.balanceOf, to) + value);
    SumBounds<Address>(p.balanceOf, 0);
  }

  lemma BurnSharesValid(p: Pair, from: Account, value: nat)
    requires SharesValid(p) && BurnShares(p, from, value).Ok?
    ensures SharesValid(BurnShares(p, from, value).value)
  {
    SumUpdate<Address>(p.balanceOf, from, Get(p.balanceOf, from) - value);
  }

  /** A transfer of nothing may name any sender, so the zero address is allowed when nothing moves. */
  lemma MoveSharesValid(p: Pair, from: Address, to: Address, value: nat)
    requires SharesValid(p) && MoveShares(p, from, to, value).Ok?
    requires from != 0 || value == 0
    ensures SharesValid(MoveShares(p, from, to, value).value)
    ensures Get(MoveShares(p, from, to, value).value.balanceOf, 0) >= Get(p.balanceOf, 0)
  {
    SumMove<Address>(p.balanceOf, from, to, value);
    assert MoveShares(p, from, to, value).value.balanceOf == Move(p.balanceOf, from, to, value);
  }

  /** Calls that move shares or approvals keep the shares valid and touch nothing else. */
  lemma ShareCallKeeps(st: State, env: Env, call: Call)
    requires SharesValid(st.pair)
    requires call.Transfer? || call.TransferFrom? || call.Approve? || call.Permit?
    ensures SharesOnly(st.pair, Try(st, env, call).pair) && Try(st, env, call).tokens == st.tokens
    ensures SharesValid(Try(st, env, call).pair)
  {
    hide Sum, PowerOfTwo;
    var p := st.pair;
    if Execute(st, env, call).Ok? {
      match call {
        case Transfer(to, value) =>
          MoveSharesValid(p, env.sender, to, value);
        case TransferFrom(from, to, value) =>
          var p1 := SpendAllowance(p, from, env.sender, value).value;
          assert Get(p.allowance, (0, env.sender)) == 0;
          MoveSharesValid(p1, from, to, value);
        case Approve(_, _) =>
        case Permit(_, _, _, _, _) =>
      }
    }
  }

  /** `q` differs from `p` at most in who holds the shares and in approvals, and the zero address
      holds no less. */
  ghost predicate SharesOnly(p: Pair, q: Pair) {
    && q == p.(balanceOf := q.balanceOf, allowance := q.allowance)
    && Get(q.balanceOf, 0) >= Get(p.balanceOf, 0)
  }

  /** While the pair is locked, a call to it moves shares at most. */
  lemma LockedCallKeeps(st: State, env: Env, call: Call)
    requires SharesValid(st.pair) && !st.pair.unlocked
    ensures SharesOnly(st.pair, Try(st, env, call).pair) && Try(st, env, call).tokens == st.tokens
    ensures SharesValid(Try(st, env, call).pair)
    ensures call.Mint? || call.Burn? || call.Swap? || call.Skim? || call.Sync? ==>
        Execute(st, env, call) == Revert(Locked)
  {
    if call.Transfer? || call.TransferFrom? || call.Approve? || call.Permit? {
      ShareCallKeeps(st, env, call);
    } else {
      assert Execute(st, env, call) == Revert(Locked);
    }
  }

  /** Whatever the callee does, the lock keeps it from the reserves, the supply and the oracle. */
  lemma {:induction false} CalleeIsShutOut(st: State, env: Env, actions: seq<CalleeAction>)
    requires SharesValid(st.pair) && !st.pair.unlocked
    requires RunCallee(st, env, actions).Ok?
    ensures SharesOnly(st.pair, RunCallee(st, env, actions).value.pair)
    ensures SharesValid(RunCallee(st, env, actions).value.pair)
    decreases actions
  {
    if actions != [] {
      match actions[0]
      case SetTokens(tokens) =>
        CalleeIsShutOut(st.(tokens := tokens), env, actions[1..]);
      case CallPair(sender, call) =>
        var inner := env.(sender := sender);
        LockedCallKeeps(st, inner, call);
        CalleeIsShutOut(Try(st, inner, call), env, actions[1..]);
      case Abort =>
    }
  }

  // ---- what each guarded call leaves behind ----

  /** Minting the protocol's fee adds shares and touches neither reserves nor the oracle. */
  lemma MintFeeEffect(p: Pair, feeTo: Address)
    requires SharesValid(p) && MintFee(p, feeTo).Ok?
    ensures var q := MintFee(p, feeTo).value;
      && q == p.(totalSupply := q.totalSupply, balanceOf := q.balanceOf, kLast := q.kLast)
      && SharesValid(q)
      && p.totalSupply <= q.totalSupply
      && Get(p.balanceOf, 0) <= Get(q.balanceOf, 0)
      && (p.totalSupply == 0 ==> q.totalSupply == 0)
      && (feeTo == 0 ==> q.kLast == 0)
      && (feeTo != p.self ==> Get(q.balanceOf, p.self) == Get(p.balanceOf, p.self))
  {
    if feeTo != 0 && p.kLast != 0 && ISqrt(p.kLast) < ISqrt(p.reserve0 * p.reserve1) {
      var liquidity := FeeLiquidity(p.totalSupply, ISqrt(p.reserve0 * p.reserve1), ISqrt(p.kLast)).value;
      assert p.totalSupply == 0 ==> liquidity == 0;
      if liquidity > 0 {
        MintSharesValid(p, feeTo, liquidity);
      }
    }
  }

  lemma SettleEffect(p: Pair, balance0: nat, balance1: nat, reserve0: uint112, reserve1: uint112, env: Env)
    requires Settle(p, balance0, balance1, reserve0, reserve1, env).Ok?
    ensures var q := Settle(p, balance0, balance1, reserve0, reserve1, env).value;
      && balance0 < TWO_112 && balance1 < TWO_112
      && q.unlocked && q.reserve0 == balance0 && q.reserve1 == balance1
      && q.totalSupply == p.totalSupply && q.balanceOf == p.balanceOf && q.allowance == p.allowance && SameSite(p, q)
      && q.kLast == (if env.FeeOn() then balance0 * balance1 else p.kLast)
  {
  }

  /** A payment to another holder leaves the payer's other balances alone. */
  lemma PayoutEffect(tokens: Tokens, token0: Address, token1: Address, self: Account, to: Address, amount0: nat,
                     amount1: nat)
    requires token0 != token1
    requires TokenTransfer(tokens, token0, self, to, amount0).Ok?
    requires TokenTransfer(TokenTransfer(tokens, token0, self, to, amount0).value, token1, self, to, amount1).Ok?
    ensures var first := TokenTransfer(tokens, token0, self, to, amount0).value;
      var after := TokenTransfer(first, token1, self, to, amount1).value;
      var balance0, balance1 := Get(tokens, (token0, self)), Get(tokens, (token1, self));
      && amount0 <= balance0 && amount1 <= balance1
      && Get(after, (token0, self)) == (if to == self then balance0 else balance0 - amount0)
      && Get(after, (token1, self)) == (if to == self then balance1 else balance1 - amount1)
  {
  }

  /** The pair as `mint`, `burn` see it once they are locked and the fee is minted. */
  function Entered(st: State, feeTo: Address): Result<Pair> {
    MintFee(st.pair.(unlocked := false), feeTo)
  }

  /** Valuing a deposit mints at most the locked minimum, on the first deposit only. */
  lemma DepositEffect(p: Pair, amount0: nat, amount1: nat)
    requires SharesValid(p) && DepositShares(p, amount0, amount1).Ok?
    ensures var q := DepositShares(p, amount0, amount1).value.0;
      && q == p.(totalSupply := q.totalSupply, balanceOf := q.balanceOf)
      && SharesValid(q) && q.totalSupply > 0
      && q.totalSupply == (if p.totalSupply == 0 then MINIMUM_LIQUIDITY else p.totalSupply)
      && Get(p.balanceOf, 0) <= Get(q.balanceOf, 0)
      && Get(q.balanceOf, p.self) == Get(p.balanceOf, p.self)
  {
    if p.totalSupply == 0 {
      MintSharesValid(p, 0, MINIMUM_LIQUIDITY);
    }
  }

  lemma CreditEffect(p: Pair, liquidity: nat, balance0: nat, balance1: nat, env: Env, to: Address)
    requires SharesValid(p) && p.totalSupply > 0 && CreditShares(p, liquidity, balance0, balance1, env, to).Ok?
    ensures var q := CreditShares(p, liquidity, balance0, balance1, env, to).value;
      && SharesValid(q) && SameSite(p, q) && q.unlocked && liquidity > 0
      && q.reserve0 == balance0 && q.reserve1 == balance1
      && Get(p.balanceOf, 0) <= Get(q.balanceOf, 0)
      && q.totalSupply == p.totalSupply + liquidity
      && (to != p.self ==> Get(q.balanceOf, p.self) == Get(p.balanceOf, p.self))
      && q.kLast == (if env.FeeOn() then balance0 * balance1 else p.kLast)
  {
    MintSharesValid(p, to, liquidity);
    SettleEffect(MintShares(p, to, liquidity).value, balance0, balance1, p.reserve0, p.reserve1, env);
  }

  lemma MintAfterFeeEffect(p: Pair, balance0: nat, balance1: nat, env: Env, to: Address)
    requires p.reserve0 <= balance0 && p.reserve1 <= balance1
    requires SharesValid(p) && MintAfterFee(p, balance0, balance1, env, to).Ok?
    ensures var (q, liquidity) := MintAfterFee(p, balance0, balance1, env, to).value;
      var shares := DepositShares(p, balance0 - p.reserve0, balance1 - p.reserve1);
      && SharesValid(q) && SameSite(p, q) && q.unlocked
      && q.reserve0 == balance0 && q.reserve1 == balance1
      && shares.Ok? && liquidity == shares.value.1 > 0
      && Get(p.balanceOf, 0) <= Get(q.balanceOf, 0)
      && q.totalSupply == p.totalSupply + liquidity + (if p.totalSupply == 0 then MINIMUM_LIQUIDITY else 0)
      && (to != p.self ==> Get(q.balanceOf, p.self) == Get(p.balanceOf, p.self))
      && q.kLast == (if env.FeeOn() then balance0 * balance1 else p.kLast)
  {
    var amount0, amount1 := balance0 - p.reserve0, balance1 - p.reserve1;
    DepositEffect(p, amount0, amount1);
    var (p1, liquidity) := DepositShares(p, amount0, amount1).value;
    CreditEffect(p1, liquidity, balance0, balance1, env, to);
  }

  lemma MintEffect(st: State, env: Env, to: Address)
    requires Valid(st) && MintCall(st, env, to).Ok?
    ensures Entered(st, env.feeTo).Ok?
    ensures var p, p1, (st', liquidity) := st.pair, Entered(st, env.feeTo).value, MintCall(st, env, to).value;
      && MintAfterFee(p1, st.Balance0(), st.Balance1(), env, to) == Ok((st'.pair, liquidity))
      && Valid(st') && st'.tokens == st.tokens && SameSite(p, st'.pair)
      && st'.pair.reserve0 == st.Balance0() && st'.pair.reserve1 == st.Balance1()
      && Get(p.balanceOf, 0) <= Get(st'.pair.balanceOf, 0)
      && st'.pair.totalSupply == p1.totalSupply + liquidity + (if p1.totalSupply == 0 then MINIMUM_LIQUIDITY else 0)
      && (to != p.self && env.feeTo != p.self ==> Get(st'.pair.balanceOf, p.self) == Get(p.balanceOf, p.self))
      && st'.pair.kLast == (if env.FeeOn() then PoolK(st'.pair) else 0)
  {
    MintFeeEffect(st.pair.(unlocked := false), env.feeTo);
    var p1 := Entered(st, env.feeTo).value;
    MintAfterFeeEffect(p1, st.Balance0(), st.Balance1(), env, to);
  }

  /** The balance a burn leaves: what it paid out is gone unless it was paid to the pair itself. */
  function AfterPayout(st: State, to: Address, balance: nat, amount: nat): int {
    if to == st.pair.self then balance else balance - amount
  }

  lemma BurnEffect(st: State, env: Env, to: Address)
    requires Valid(st) && BurnCall(st, env, to).Ok?
    ensures Entered(st, env.feeTo).Ok?
    ensures var p, p1, (st', (amount0, amount1)) := st.pair, Entered(st, env.feeTo).value, BurnCall(st, env, to).value;
      var shares := Get(p.balanceOf, p.self);
      && Valid(st') && SameSite(p, st'.pair)
      && p1.totalSupply > 0
      && amount0 == shares * st.Balance0() / p1.totalSupply
      && amount1 == shares * st.Balance1() / p1.totalSupply
      && amount0 <= st.Balance0() && amount1 <= st.Balance1()
      && st'.pair.reserve0 == AfterPayout(st, to, st.Balance0(), amount0)
      && st'.pair.reserve1 == AfterPayout(st, to, st.Balance1(), amount1)
      && st'.pair.totalSupply == p1.totalSupply - shares
      && (if env.FeeOn() then st'.pair.kLast == PoolK(st'.pair) else st'.pair.kLast == 0)
      && Get(p.balanceOf, 0) <= Get(st'.pair.balanceOf, 0)
  {
    hide PowerOfTwo, Sum;
    var p0 := st.pair.(unlocked := false);
    MintFeeEffect(p0, env.feeTo);
    var p1 := MintFee(p0, env.feeTo).value;
    var shares := Get(p0.balanceOf, p0.self);
    var amount0 := ProRata(shares, st.Balance0(), p1.totalSupply).value;
    var amount1 := ProRata(shares, st.Balance1(), p1.totalSupply).value;
    BurnSharesValid(p1, p0.self, shares);
    PayoutEffect(st.tokens, p0.token0, p0.token1, p0.self, to, amount0, amount1);
    var p2 := BurnShares(p1, p0.self, shares).value;
    var tokens1 := TokenTransfer(st.tokens, p0.token0, p0.self, to, amount0).value;
    var tokens2 := TokenTransfer(tokens1, p0.token1, p0.self, to, amount1).value;
    var st2 := State(p2, tokens2);
    SettleEffect(p2, st2.Balance0(), st2.Balance1(), p0.reserve0, p0.reserve1, env);
  }

  lemma SwapEffect(st: State, env: Env, amount0Out: nat, amount1Out: nat, to: Address, callback: seq<CalleeAction>)
    requires Valid(st) && SwapCall(st, env, amount0Out, amount1Out, to, callback).Ok?
    ensures var p, st' := st.pair, SwapCall(st, env, amount0Out, amount1Out, to, callback).value;
      && Valid(st') && SameSite(p, st'.pair)
      && amount0Out < p.reserve0 && amount1Out < p.reserve1
      && CheckK(st'.pair.reserve0, st'.pair.reserve1, p.reserve0, p.reserve1, amount0Out, amount1Out).Ok?
      && st'.pair.reserve0 == st'.Balance0() && st'.pair.reserve1 == st'.Balance1()
      && st'.pair.totalSupply == p.totalSupply && st'.pair.kLast == p.kLast
      && Get(p.balanceOf, 0) <= Get(st'.pair.balanceOf, 0)
  {
    var p0 := st.pair.(unlocked := false);
    var tokens1 := PayOut(st.tokens, p0.token0, p0.self, to, amount0Out).value;
    var tokens2 := PayOut(tokens1, p0.token1, p0.self, to, amount1Out).value;
    CalleeIsShutOut(State(p0, tokens2), env, callback);
  }

  lemma SkimEffect(st: State, to: Address)
    requires Valid(st) && SkimCall(st, to).Ok?
    ensures var st' := SkimCall(st, to).value;
      && Valid(st') && st'.pair == st.pair
      && (to != st.pair.self ==> st'.Balance0() == st.pair.reserve0 && st'.Balance1() == st.pair.reserve1)
  {
  }

  lemma SyncEffect(st: State, env: Env)
    requires Valid(st) && SyncCall(st, env).Ok?
    ensures var p, st' := st.pair, SyncCall(st, env).value;
      && Valid(st') && st'.tokens == st.tokens && SameSite(p, st'.pair)
      && st'.pair.reserve0 == st.Balance0() && st'.pair.reserve1 == st.Balance1()
      && st'.pair.totalSupply == p.totalSupply && st'.pair.balanceOf == p.balanceOf && st'.pair.kLast == p.kLast
  {
  }

  // ---- over every run ----

  lemma CallKeepsValid(st: State, env: Env, call: Call)
    requires Valid(st)
    ensures var st' := Try(st, env, call);
      Valid(st') && SameSite(st.pair, st'.pair) && Get(st.pair.balanceOf, 0) <= Get(st'.pair.balanceOf, 0)
  {
    if Execute(st, env, call).Ok? {
      match call {
        case Mint(to) => MintEffect(st, env, to);
        case Burn(to) => BurnEffect(st, env, to);
        case Swap(amount0Out, amount1Out, to, callback) => SwapEffect(st, env, amount0Out, amount1Out, to, callback);
        case Skim(to) => SkimEffect(st, to);
        case Sync => SyncEffect(st, env);
        case _ => ShareCallKeeps(st, env, call);
      }
    }
  }

  lemma StepKeepsValid(st: State, step: Step)
    requires Valid(st) && Legal(st, step)
    ensures var st' := Next(st, step);
      Valid(st') && SameSite(st.pair, st'.pair) && Get(st.pair.balanceOf, 0) <= Get(st'.pair.balanceOf, 0)
  {
    if step.CallStep? {
      CallKeepsValid(st, step.env, step.call);
    }
  }

  /** In every reachable state the shares add up to the supply and the reserves are covered. */
  lemma {:induction false} RunKeepsValid(st: State, steps: seq<Step>)
    requires Valid(st) && LegalRun(st, steps)
    ensures Valid(After(st, steps))
    ensures Get(st.pair.balanceOf, 0) <= Get(After(st, steps).pair.balanceOf, 0)
    decreases steps
  {
    if steps != [] {
      StepKeepsValid(st, steps[0]);
      RunKeepsValid(Next(st, steps[0]), steps[1..]);
    }
  }

  /** Once anything was minted, no run ever reaches an empty supply again. */
  lemma FirstMintHappensOnce(st: State, steps: seq<Step>)
    requires Valid(st) && LegalRun(st, steps) && st.pair.totalSupply > 0
    ensures Get(After(st, steps).pair.balanceOf, 0) >= MINIMUM_LIQUIDITY
    ensures After(st, steps).pair.totalSupply >= MINIMUM_LIQUIDITY
  {
    RunKeepsValid(st, steps);
    SumBounds<Address>(After(st, steps).pair.balanceOf, 0);
  }
}
