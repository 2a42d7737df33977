/** Who receives what: every balance of shares and tokens after each call of the pair. */
module Receipts {
  import opened Arithmetic
  import opened Evm
  import opened SquareRoot
  import opened PairModel
  import opened PairInvariants

  type TokenKey = (Address, Address)

  function When(condition: bool, value: nat): nat {
    if condition then value else 0
  }

  /** The change of the balance `key` when `amount` of `token` goes from `from` to `to`. */
  function Moved(key: TokenKey, token: Address, from: Address, to: Address, amount: nat): int {
    When(key == (token, to), amount) - When(key == (token, from), amount)
  }

  lemma TransferReceipts(tokens: Tokens, token: Address, from: Address, to: Address, amount: nat)
    requires TokenTransfer(tokens, token, from, to, amount).Ok?
    ensures forall key: TokenKey ::
              Get(TokenTransfer(tokens, token, from, to, amount).value, key)
              == Get(tokens, key) + Moved(key, token, from, to, amount)
  {
  }

  // ---- mint ----

  /** The protocol's fee goes to `feeTo` and to nobody else. */
  lemma FeeReceipt(p: Pair, feeTo: Address)
    requires MintFee(p, feeTo).Ok?
    ensures var q := MintFee(p, feeTo).value;
      && p.totalSupply <= q.totalSupply
      && (forall a: Address ::
            Get(q.balanceOf, a) == Get(p.balanceOf, a) + When(a == feeTo, q.totalSupply - p.totalSupply))
  {
    hide PowerOfTwo, ISqrt, FeeLiquidity;
  }

  lemma DepositReceipt(p: Pair, amount0: nat, amount1: nat, a: Address)
    requires DepositShares(p, amount0, amount1).Ok?
    ensures var q := DepositShares(p, amount0, amount1).value.0;
      Get(q.balanceOf, a) == Get(p.balanceOf, a) + When(a == 0 && p.totalSupply == 0, MINIMUM_LIQUIDITY)
  {
    hide PowerOfTwo, ISqrt;
  }

  lemma CreditReceipt(p: Pair, liquidity: nat, balance0: nat, balance1: nat, env: Env, to: Address, a: Address)
    requires CreditShares(p, liquidity, balance0, balance1, env, to).Ok?
    ensures var q := CreditShares(p, liquidity, balance0, balance1, env, to).value;
      Get(q.balanceOf, a) == Get(p.balanceOf, a) + When(a == to, liquidity)
  {
    hide PowerOfTwo, Accumulate;
  }

  /** `mint` credits the new shares to `to`, the fee to `feeTo`, the locked minimum of the first deposit to
      the zero address, and nothing to anybody else. */
  lemma MintReceipts(st: State, env: Env, to: Address, a: Address)
    requires Valid(st) && MintCall(st, env, to).Ok?
    ensures Entered(st, env.feeTo).Ok?
    ensures var p, p1, (st', liquidity) := st.pair, Entered(st, env.feeTo).value, MintCall(st, env, to).value;
      && p.totalSupply <= p1.totalSupply
      && Get(st'.pair.balanceOf, a) == Get(p.balanceOf, a)
           + When(a == env.feeTo, p1.totalSupply - p.totalSupply)
           + When(a == to, liquidity)
           + When(a == 0 && p1.totalSupply == 0, MINIMUM_LIQUIDITY)
  {
    hide MintFee, DepositShares, CreditShares, PowerOfTwo, Sum;
    MintEffect(st, env, to);
    var p1 := Entered(st, env.feeTo).value;
    FeeReceipt(st.pair.(unlocked := false), env.feeTo);
    MintFeeEffect(st.pair.(unlocked := false), env.feeTo);
    var amount0, amount1 := st.Balance0() - p1.reserve0, st.Balance1() - p1.reserve1;
    DepositReceipt(p1, amount0, amount1, a);
    var (p2, liquidity) := DepositShares(p1, amount0, amount1).value;
    CreditReceipt(p2, liquidity, st.Balance0(), st.Balance1(), env, to, a);
  }

  /** `credit` is the floor of `amount * supply / reserve`. */
  lemma ShareFloor(amount: nat, supply: nat, reserve: nat)
    requires reserve > 0
    ensures 0 <= amount * supply
    ensures var share := amount * supply / reserve;
      share * reserve <= amount * supply < (share + 1) * reserve
  {
    MulMonotone(0, amount, supply);
    DivBounds(amount * supply, reserve);
  }

  lemma DepositIsFair(p: Pair, amount0: nat, amount1: nat)
    requires DepositShares(p, amount0, amount1).Ok?
    ensures var credit := DepositShares(p, amount0, amount1).value.1;
      if p.totalSupply > 0 then
        && p.reserve0 > 0 && p.reserve1 > 0
        && credit * p.reserve0 <= amount0 * p.totalSupply
        && credit * p.reserve1 <= amount1 * p.totalSupply
        && ((credit + 1) * p.reserve0 > amount0 * p.totalSupply || (credit + 1) * p.reserve1 > amount1 * p.totalSupply)
      else
        var total := credit + MINIMUM_LIQUIDITY;
        total * total <= amount0 * amount1 < (total + 1) * (total + 1)
  {
    hide PowerOfTwo;
    if p.totalSupply > 0 {
      FairMinimum(p, amount0, amount1);
    }
  }

  lemma FairMinimum(p: Pair, amount0: nat, amount1: nat)
    requires p.totalSupply > 0 && DepositShares(p, amount0, amount1).Ok?
    ensures var credit := DepositShares(p, amount0, amount1).value.1;
      && p.reserve0 > 0 && p.reserve1 > 0
      && credit * p.reserve0 <= amount0 * p.totalSupply
      && credit * p.reserve1 <= amount1 * p.totalSupply
      && ((credit + 1) * p.reserve0 > amount0 * p.totalSupply || (credit + 1) * p.reserve1 > amount1 * p.totalSupply)
  {
    hide PowerOfTwo, ISqrt;
    ShareFloor(amount0, p.totalSupply, p.reserve0);
    ShareFloor(amount1, p.totalSupply, p.reserve1);
    var credit := DepositShares(p, amount0, amount1).value.1;
    var share0, share1 := amount0 * p.totalSupply / p.reserve0, amount1 * p.totalSupply / p.reserve1;
    assert credit == Min(share0, share1);
    MulMonotone(credit, share0, p.reserve0);
    MulMonotone(credit, share1, p.reserve1);
  }

  /** A later deposit is credited the largest number of shares that both sides of it cover, measured by the
      supply after the fee; the first one the root of its product, of which the minimum stays locked. */
  lemma MintCreditsFairShare(st: State, env: Env, to: Address)
    requires Valid(st) && MintCall(st, env, to).Ok?
    ensures Entered(st, env.feeTo).Ok?
    ensures var p, q := st.pair, MintCall(st, env, to).value.0.pair;
      var amount0, amount1 := st.Balance0() - p.reserve0, st.Balance1() - p.reserve1;
      var supply := Entered(st, env.feeTo).value.totalSupply;
      var growth := q.totalSupply - supply;
      && growth > 0 && MintCall(st, env, to).value.1 == growth - When(supply == 0, MINIMUM_LIQUIDITY)
      && if supply > 0 then
           && growth * p.reserve0 <= amount0 * supply
           && growth * p.reserve1 <= amount1 * supply
           && ((growth + 1) * p.reserve0 > amount0 * supply || (growth + 1) * p.reserve1 > amount1 * supply)
         else
           growth * growth <= amount0 * amount1 < (growth + 1) * (growth + 1)
  {
    hide MintCall, MintFee, DepositShares, PowerOfTwo, Sum, ISqrt;
    MintEffect(st, env, to);
    MintFeeEffect(st.pair.(unlocked := false), env.feeTo);
    var p1 := Entered(st, env.feeTo).value;
    MintAfterFeeEffect(p1, st.Balance0(), st.Balance1(), env, to);
    DepositIsFair(p1, st.Balance0() - p1.reserve0, st.Balance1() - p1.reserve1);
  }

  // ---- burn, skim, swap ----

  /** `burn` pays both amounts to `to`; the pair gives up the shares it held, the fee goes to `feeTo`, and
      all other balances of shares and tokens are as before. */
  lemma BurnReceipts(st: State, env: Env, to: Address)
    requires Valid(st) && BurnCall(st, env, to).Ok?
    ensures Entered(st, env.feeTo).Ok?
    ensures var p, p1, (st', (amount0, amount1)) := st.pair, Entered(st, env.feeTo).value, BurnCall(st, env, to).value;
      && p.totalSupply <= p1.totalSupply && amount0 > 0 && amount1 > 0
      && (forall a: Address :: Get(st'.pair.balanceOf, a)
            == Get(p.balanceOf, a) + When(a == env.feeTo, p1.totalSupply - p.totalSupply)
               - When(a == p.self, Get(p.balanceOf, p.self)))
      && (forall key: TokenKey :: Get(st'.tokens, key)
            == Get(st.tokens, key) + Moved(key, p.token0, p.self, to, amount0)
               + Moved(key, p.token1, p.self, to, amount1))
  {
    hide MintFee, ProRata, Settle, TokenTransfer, Moved, PowerOfTwo, Sum;
    var p0 := st.pair.(unlocked := false);
    FeeReceipt(p0, env.feeTo);
    MintFeeEffect(p0, env.feeTo);
    var p1 := MintFee(p0, env.feeTo).value;
    var shares := Get(p0.balanceOf, p0.self);
    var amount0 := ProRata(shares, st.Balance0(), p1.totalSupply).value;
    var amount1 := ProRata(shares, st.Balance1(), p1.totalSupply).value;
    var p2 := BurnShares(p1, p0.self, shares).value;
    TransferReceipts(st.tokens, p0.token0, p0.self, to, amount0);
    var tokens1 := TokenTransfer(st.tokens, p0.token0, p0.self, to, amount0).value;
    TransferReceipts(tokens1, p0.token1, p0.self, to, amount1);
    var st2 := State(p2, TokenTransfer(tokens1, p0.token1, p0.self, to, amount1).value);
    SettleEffect(p2, st2.Balance0(), st2.Balance1(), p0.reserve0, p0.reserve1, env);
  }

  /** `skim` sends exactly what exceeds the reserves, to `to`. */
  lemma SkimReceipts(st: State, to: Address)
    requires Valid(st) && SkimCall(st, to).Ok?
    ensures var p := st.pair;
      forall key: TokenKey :: Get(SkimCall(st, to).value.tokens, key)
        == Get(st.tokens, key) + Moved(key, p.token0, p.self, to, st.Balance0() - p.reserve0)
           + Moved(key, p.token1, p.self, to, st.Balance1() - p.reserve1)
  {
    hide TokenTransfer, Moved, PowerOfTwo, Sum;
    var p := st.pair;
    TransferReceipts(st.tokens, p.token0, p.self, to, st.Balance0() - p.reserve0);
    var tokens1 := TokenTransfer(st.tokens, p.token0, p.self, to, st.Balance0() - p.reserve0).value;
    assert Moved((p.token1, p.self), p.token0, p.self, to, st.Balance0() - p.reserve0) == 0 by {
      OtherTokenStays(p, to, st.Balance0() - p.reserve0);
    }
    TransferReceipts(tokens1, p.token1, p.self, to, st.Balance1() - p.reserve1);
  }

  lemma OtherTokenStays(p: Pair, to: Address, amount: nat)
    requires p.token0 != p.token1
    ensures Moved((p.token1, p.self), p.token0, p.self, to, amount) == 0
  {
  }

  lemma PayOutReceipts(tokens: Tokens, token: Address, from: Address, to: Address, amount: nat)
    requires PayOut(tokens, token, from, to, amount).Ok?
    ensures forall key: TokenKey ::
              Get(PayOut(tokens, token, from, to, amount).value, key)
              == Get(tokens, key) + Moved(key, token, from, to, amount)
  {
    if amount > 0 {
      TransferReceipts(tokens, token, from, to, amount);
    }
  }

  /** `swap` asks for something, for less than the reserves and for a recipient that is no token of the pair.
      It pays both outputs to `to` before the callee runs; what the callee leaves behind stays. */
  lemma SwapPaysFirst(st: State, env: Env, amount0Out: nat, amount1Out: nat, to: Address, callback: seq<CalleeAction>)
    returns (paid: Tokens)
    requires Valid(st) && SwapCall(st, env, amount0Out, amount1Out, to, callback).Ok?
    ensures amount0Out > 0 || amount1Out > 0
    ensures to != st.pair.token0 && to != st.pair.token1
    ensures amount0Out < st.pair.reserve0 && amount1Out < st.pair.reserve1
    ensures var p := st.pair;
      forall key: TokenKey :: Get(paid, key) == Get(st.tokens, key)
        + Moved(key, p.token0, p.self, to, amount0Out) + Moved(key, p.token1, p.self, to, amount1Out)
    ensures var st' := SwapCall(st, env, amount0Out, amount1Out, to, callback).value;
      var after := RunCallee(State(st.pair.(unlocked := false), paid), env, callback);
      && after.Ok?
      && st'.tokens == after.value.tokens && st'.pair.balanceOf == after.value.pair.balanceOf
  {
    hide PayOut, Moved, CheckK, Update, PowerOfTwo, Sum;
    var p0 := st.pair.(unlocked := false);
    var tokens1 := PayOut(st.tokens, p0.token0, p0.self, to, amount0Out).value;
    PayOutReceipts(st.tokens, p0.token0, p0.self, to, amount0Out);
    PayOutReceipts(tokens1, p0.token1, p0.self, to, amount1Out);
    paid := PayOut(tokens1, p0.token1, p0.self, to, amount1Out).value;
    var st2 := RunCallee(State(p0, paid), env, callback).value;
    UpdateKeepsShares(st2.pair, st2.Balance0(), st2.Balance1(), p0.reserve0, p0.reserve1, env.timestamp);
  }

  lemma UpdateKeepsShares(p: Pair, balance0: nat, balance1: nat, reserve0: uint112, reserve1: uint112, now: nat)
    requires Update(p, balance0, balance1, reserve0, reserve1, now).Ok?
    ensures Update(p, balance0, balance1, reserve0, reserve1, now).value.balanceOf == p.balanceOf
  {
    hide Accumulate, PowerOfTwo;
  }

  // ---- shares ----

  function SharesMoved(a: Address, from: Address, to: Address, value: nat): int {
    When(a == to, value) - When(a == from, value)
  }

  /** `transfer` succeeds exactly for what the sender has, and moves it. */
  lemma TransferOutcome(st: State, env: Env, to: Address, value: nat)
    requires SharesValid(st.pair)
    ensures var result := Execute(st, env, Transfer(to, value));
      && (result.Ok? <==> value <= Get(st.pair.balanceOf, env.sender))
      && (result.Ok? ==>
            forall a: Address ::
              Get(result.value.pair.balanceOf, a)
              == Get(st.pair.balanceOf, a) + SharesMoved(a, env.sender, to, value))
  {
    hide PowerOfTwo, Sum;
    MoveOutcome(st.pair, env.sender, to, value);
  }

  /** No sum of two balances overflows, since all of them together are the supply. */
  lemma MoveOutcome(p: Pair, from: Address, to: Address, value: nat)
    requires SharesValid(p)
    ensures MoveShares(p, from, to, value).Ok? <==> value <= Get(p.balanceOf, from)
    ensures MoveShares(p, from, to, value).Ok? ==>
      && (forall a: Address :: Get(MoveShares(p, from, to, value).value.balanceOf, a)
            == Get(p.balanceOf, a) + SharesMoved(a, from, to, value))
      && MoveShares(p, from, to, value).value.allowance == p.allowance
  {
    hide PowerOfTwo, Sum;
    if value <= Get(p.balanceOf, from) {
      SumMove<Address>(p.balanceOf, from, to, value);
      SumBounds<Address>(Move(p.balanceOf, from, to, value), to);
    }
  }

  /** `transferFrom` needs the owner's balance and, unless it is unlimited, an approval of the caller, which
      falls by what is moved; no other approval changes. */
  lemma TransferFromOutcome(st: State, env: Env, from: Address, to: Address, value: nat)
    requires SharesValid(st.pair)
    ensures var result, allowed := Execute(st, env, TransferFrom(from, to, value)),
                                   Get(st.pair.allowance, (from, env.sender));
      && (result.Ok? <==> value <= Get(st.pair.balanceOf, from) && (allowed == TWO_256 - 1 || value <= allowed))
      && (result.Ok? ==>
            && (forall a: Address :: Get(result.value.pair.balanceOf, a)
                  == Get(st.pair.balanceOf, a) + SharesMoved(a, from, to, value))
            && (forall key: TokenKey :: Get(result.value.pair.allowance, key) == Get(st.pair.allowance, key)
                  - When(key == (from, env.sender) && allowed != TWO_256 - 1, value)))
  {
    hide PowerOfTwo, Sum, MoveShares;
    MoveOutcome(st.pair, from, to, value);
    var spent := SpendAllowance(st.pair, from, env.sender, value);
    if spent.Ok? {
      SpendingKeepsValid(st.pair, from, env.sender, value);
      MoveOutcome(spent.value, from, to, value);
    }
  }

  lemma SpendingKeepsValid(p: Pair, owner: Address, spender: Address, value: nat)
    requires SharesValid(p) && SpendAllowance(p, owner, spender, value).Ok?
    ensures SharesValid(SpendAllowance(p, owner, spender, value).value)
    ensures SpendAllowance(p, owner, spender, value).value.balanceOf == p.balanceOf
  {
    hide Sum;
  }

  /** `approve` always, and `permit` exactly before its deadline with the owner's signature, sets one
      approval and no other. */
  lemma ApprovalOutcome(st: State, env: Env, owner: Address, spender: Address, value: nat, deadline: nat,
                        signer: Address)
    ensures var approved, permitted := Execute(st, env, Approve(spender, value)),
                                       Execute(st, env, Permit(owner, spender, value, deadline, signer));
      && approved.Ok?
      && (permitted.Ok? <==> env.timestamp <= deadline && owner == signer != 0)
      && (forall key: TokenKey :: Get(approved.value.pair.allowance, key)
            == if key == (env.sender, spender) then value else Get(st.pair.allowance, key))
      && (permitted.Ok? ==>
            forall key: TokenKey ::
              Get(permitted.value.pair.allowance, key)
              == if key == (owner, spender) then value else Get(st.pair.allowance, key))
  {
  }
}
