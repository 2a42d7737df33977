/** The pair contract as an object whose methods update its storage step by step. Each external
    method is proved to do exactly what `PairModel` says of it. */
module Pair {
  import opened Evm
  import SquareRoot
  import M = PairModel
  import opened PairModel

  /** The ERC-20 contracts behind the pairs: one table of balances, shared by everyone. */
  class TokenLedger {
    var balances: Tokens

    constructor ()
      ensures balances == map[]
    {
      balances := map[];
    }

    /** `_safeTransfer` of an exact-transfer token. */
    method Transfer(token: Address, from: Address, to: Address, value: nat) returns (r: Result<()>)
      modifies this
      ensures match TokenTransfer(old(balances), token, from, to, value)
              case Ok(moved) => r == Ok(()) && balances == moved
              case Revert(reason) => r == Revert(reason)
    {
      var _ :- Need(value <= Get(balances, (token, from)), TransferFailed);
      balances := balances[(token, from) := Get(balances, (token, from)) - value];
      balances := balances[(token, to) := Get(balances, (token, to)) + value];
      return Ok(());
    }
  }

  class UniswapV2Pair {
    const self: Account
    const token0: Address
    const token1: Address
    const ledger: TokenLedger

    var reserve0: uint112
    var reserve1: uint112
    var blockTimestampLast: uint32
    var price0CumulativeLast: uint256
    var price1CumulativeLast: uint256
    var kLast: uint256
    var unlocked: bool
    var totalSupply: uint256
    var balanceOf: map<Address, nat>
    var allowance: map<(Address, Address), nat>

    function Storage(): M.Pair
      reads this
    {
      M.Pair(self, token0, token1, reserve0, reserve1, blockTimestampLast, price0CumulativeLast,
             price1CumulativeLast, kLast, unlocked, totalSupply, balanceOf, allowance)
    }

    function View(): State
      reads this, ledger
    {
      State(Storage(), ledger.balances)
    }

    constructor (self: Account, token0: Address, token1: Address, ledger: TokenLedger)
      ensures this.ledger == ledger
      ensures Storage() == InitialPair(self, token0, token1)
    {
      this.self, this.token0, this.token1, this.ledger := self, token0, token1, ledger;
      reserve0, reserve1, blockTimestampLast := 0, 0, 0;
      price0CumulativeLast, price1CumulativeLast, kLast := 0, 0, 0;
      unlocked := true;
      totalSupply, balanceOf, allowance := 0, map[], map[];
    }

    // ---- internal functions ----

    method MintTo(to: Address, value: nat) returns (r: Result<()>)
      modifies this
      ensures match MintShares(old(Storage()), to, value)
              case Ok(p) => r == Ok(()) && Storage() == p
              case Revert(reason) => r == Revert(reason)
    {
      totalSupply :- SafeAdd(totalSupply, value);
      var balance :- SafeAdd(Get(balanceOf, to), value);
      balanceOf := balanceOf[to := balance];
      return Ok(());
    }

    method BurnFrom(from: Address, value: nat) returns (r: Result<()>)
      modifies this
      ensures match BurnShares(old(Storage()), from, value)
              case Ok(p) => r == Ok(()) && Storage() == p
              case Revert(reason) => r == Revert(reason)
    {
      var balance :- SafeSub(Get(balanceOf, from), value);
      balanceOf := balanceOf[from := balance];
      var supply :- SafeSub(totalSupply, value);
      totalSupply := supply;
      return Ok(());
    }

    method MoveBetween(from: Address, to: Address, value: nat) returns (r: Result<()>)
      modifies this
      ensures match MoveShares(old(Storage()), from, to, value)
              case Ok(p) => r == Ok(()) && Storage() == p
              case Revert(reason) => r == Revert(reason)
    {
      var debit :- SafeSub(Get(balanceOf, from), value);
      balanceOf := balanceOf[from := debit];
      var credit :- SafeAdd(Get(balanceOf, to), value);
      balanceOf := balanceOf[to := credit];
      return Ok(());
    }

    method UpdateReserves(balance0: nat, balance1: nat, reserve0Before: uint112, reserve1Before: uint112, now: nat)
      returns (r: Result<()>)
      modifies this
      ensures match Update(old(Storage()), balance0, balance1, reserve0Before, reserve1Before, now)
              case Ok(p) => r == Ok(()) && Storage() == p
              case Revert(reason) => r == Revert(reason)
    {
      hide Wrap, UqDiv, Encode, PowerOfTwo;
      var _ :- Need(balance0 < TWO_112 && balance1 < TWO_112, Overflow);
      var timestamp := now % TWO_32;
      var elapsed := (timestamp - blockTimestampLast) % TWO_32;
      if elapsed > 0 && reserve0Before != 0 && reserve1Before != 0 {
        price0CumulativeLast := Accumulate(price0CumulativeLast, reserve1Before, reserve0Before, elapsed);
        price1CumulativeLast := Accumulate(price1CumulativeLast, reserve0Before, reserve1Before, elapsed);
      }
      reserve0, reserve1 := balance0, balance1;
      blockTimestampLast := timestamp;
      return Ok(());
    }

    method MintProtocolFee(feeTo: Address) returns (r: Result<bool>)
      modifies this
      ensures match MintFee(old(Storage()), feeTo)
              case Ok(p) => r == Ok(feeTo != 0) && Storage() == p
              case Revert(reason) => r == Revert(reason)
    {
      var feeOn := feeTo != 0;
      var kBefore := kLast;
      if feeOn {
        if kBefore != 0 {
          var k :- SafeMul(reserve0, reserve1);
          var rootK := SquareRoot.Sqrt(k);
          var rootKLast := SquareRoot.Sqrt(kBefore);
          if rootK > rootKLast {
            var liquidity :- FeeLiquidity(totalSupply, rootK, rootKLast);
            if liquidity > 0 {
              var _ :- MintTo(feeTo, liquidity);
            }
          }
        }
      } else if kBefore != 0 {
        kLast := 0;
      }
      return Ok(feeOn);
    }

    method RecordKLast(feeOn: bool) returns (r: Result<()>)
      modifies this
      ensures match RecordK(old(Storage()), feeOn)
              case Ok(p) => r == Ok(()) && Storage() == p
              case Revert(reason) => r == Revert(reason)
    {
      if feeOn {
        kLast :- SafeMul(reserve0, reserve1);
      }
      return Ok(());
    }

    /** The middle of `mint`: what the deposit is worth, and the locked minimum on the first one. */
    method MintDeposit(amount0: nat, amount1: nat) returns (r: Result<nat>)
      modifies this
      ensures match DepositShares(old(Storage()), amount0, amount1)
              case Ok((p, liquidity)) => r == Ok(liquidity) && Storage() == p
              case Revert(reason) => r == Revert(reason)
    {
      var supply := totalSupply;
      if supply == 0 {
        var product :- SafeMul(amount0, amount1);
        var root := SquareRoot.Sqrt(product);
        var liquidity :- SafeSub(root, MINIMUM_LIQUIDITY);
        var _ :- MintTo(0, MINIMUM_LIQUIDITY);
        return Ok(liquidity);
      } else {
        var scaled0 :- SafeMul(amount0, supply);
        var share0 :- SafeDiv(scaled0, reserve0);
        var scaled1 :- SafeMul(amount1, supply);
        var share1 :- SafeDiv(scaled1, reserve1);
        return Ok(Min(share0, share1));
      }
    }

    // ---- bodies of the external functions, before a revert is undone ----

    method MintBody(env: Env, to: Address) returns (r: Result<nat>)
      modifies this, ledger
      ensures match MintCall(old(View()), env, to)
              case Ok((st, liquidity)) => r == Ok(liquidity) && View() == st
              case Revert(reason) => r == Revert(reason)
    {
      var _ :- Need(unlocked, Locked);
      unlocked := false;
      var balance0 := Get(ledger.balances, (token0, self));
      var balance1 := Get(ledger.balances, (token1, self));
      var _ :- SafeSub(balance0, reserve0);
      var _ :- SafeSub(balance1, reserve1);
      var feeOn :- MintProtocolFee(env.feeTo);
      r := MintRest(balance0, balance1, env, to, feeOn);
    }

    /** `mint` from the point where the protocol's fee is minted. */
    method MintRest(balance0: nat, balance1: nat, env: Env, to: Address, feeOn: bool) returns (r: Result<nat>)
      requires reserve0 <= balance0 && reserve1 <= balance1 && feeOn == env.FeeOn()
      modifies this
      ensures match MintAfterFee(old(Storage()), balance0, balance1, env, to)
              case Ok((p, liquidity)) => r == Ok(liquidity) && Storage() == p
              case Revert(reason) => r == Revert(reason)
    {
      hide DepositShares, Update;
      var liquidity :- MintDeposit(balance0 - reserve0, balance1 - reserve1);
      var _ :- Need(liquidity > 0, InsufficientLiquidityMinted);
      var _ :- MintTo(to, liquidity);
      var _ :- UpdateReserves(balance0, balance1, reserve0, reserve1, env.timestamp);
      var _ :- RecordKLast(feeOn);
      unlocked := true;
      return Ok(liquidity);
    }

    method BurnBody(env: Env, to: Address) returns (r: Result<(nat, nat)>)
      modifies this, ledger
      ensures match BurnCall(old(View()), env, to)
              case Ok((st, amounts)) => r == Ok(amounts) && View() == st
              case Revert(reason) => r == Revert(reason)
    {
      var _ :- Need(unlocked, Locked);
      unlocked := false;
      var reserve0Before, reserve1Before := reserve0, reserve1;
      var balance0 := Get(ledger.balances, (token0, self));
      var balance1 := Get(ledger.balances, (token1, self));
      var liquidity := Get(balanceOf, self);
      var feeOn :- MintProtocolFee(env.feeTo);
      var amount0 :- ProRata(liquidity, balance0, totalSupply);
      var amount1 :- ProRata(liquidity, balance1, totalSupply);
      var _ :- Need(amount0 > 0 && amount1 > 0, InsufficientLiquidityBurned);
      var _ :- BurnFrom(self, liquidity);
      var _ :- ledger.Transfer(token0, self, to, amount0);
      var _ :- ledger.Transfer(token1, self, to, amount1);
      balance0 := Get(ledger.balances, (token0, self));
      balance1 := Get(ledger.balances, (token1, self));
      var _ :- UpdateReserves(balance0, balance1, reserve0Before, reserve1Before, env.timestamp);
      var _ :- RecordKLast(feeOn);
      unlocked := true;
      return Ok((amount0, amount1));
    }

    method SwapBody(env: Env, amount0Out: nat, amount1Out: nat, to: Address, callback: seq<CalleeAction>)
      returns (r: Result<()>)
      modifies this, ledger
      ensures match SwapCall(old(View()), env, amount0Out, amount1Out, to, callback)
              case Ok(st) => r == Ok(()) && View() == st
              case Revert(reason) => r == Revert(reason)
      decreases callback, 1
    {
      var _ :- Need(unlocked, Locked);
      unlocked := false;
      var _ :- Need(amount0Out > 0 || amount1Out > 0, InsufficientOutputAmount);
      var reserve0Before, reserve1Before := reserve0, reserve1;
      var _ :- Need(amount0Out < reserve0Before && amount1Out < reserve1Before, InsufficientLiquidity);
      var _ :- Need(to != token0 && to != token1, InvalidTo);
      if amount0Out > 0 {
        var _ :- ledger.Transfer(token0, self, to, amount0Out);
      }
      if amount1Out > 0 {
        var _ :- ledger.Transfer(token1, self, to, amount1Out);
      }
      var _ :- CallBack(env, callback);
      var balance0 := Get(ledger.balances, (token0, self));
      var balance1 := Get(ledger.balances, (token1, self));
      var _ :- CheckK(balance0, balance1, reserve0Before, reserve1Before, amount0Out, amount1Out);
      var _ :- UpdateReserves(balance0, balance1, reserve0Before, reserve1Before, env.timestamp);
      unlocked := true;
      return Ok(());
    }

    /** The callee's code: it runs while the pair is locked and may call anything. */
    method CallBack(env: Env, actions: seq<CalleeAction>) returns (r: Result<()>)
      modifies this, ledger
      ensures match RunCallee(old(View()), env, actions)
              case Ok(st) => r == Ok(()) && View() == st
              case Revert(reason) => r == Revert(reason)
      decreases actions, 0
    {
      if actions == [] {
        return Ok(());
      }
      match actions[0] {
        case SetTokens(tokens) =>
          ledger.balances := tokens;
        case CallPair(sender, call) =>
          assert call < actions[0];
          var _ := Run(env.(sender := sender), call);
        case Abort =>
          return Revert(CalleeFailed);
      }
      r := CallBack(env, actions[1..]);
    }

    method SkimBody(to: Address) returns (r: Result<()>)
      modifies this, ledger
      ensures match SkimCall(old(View()), to)
              case Ok(st) => r == Ok(()) && View() == st
              case Revert(reason) => r == Revert(reason)
    {
      var _ :- Need(unlocked, Locked);
      unlocked := false;
      var excess0 :- SafeSub(Get(ledger.balances, (token0, self)), reserve0);
      var sent0 := ledger.Transfer(token0, self, to, excess0);
      assert sent0.Ok?;
      var excess1 :- SafeSub(Get(ledger.balances, (token1, self)), reserve1);
      var sent1 := ledger.Transfer(token1, self, to, excess1);
      assert sent1.Ok?;
      unlocked := true;
      return Ok(());
    }

    method SyncBody(env: Env) returns (r: Result<()>)
      modifies this, ledger
      ensures match SyncCall(old(View()), env)
              case Ok(st) => r == Ok(()) && View() == st
              case Revert(reason) => r == Revert(reason)
    {
      hide Accumulate, PowerOfTwo;
      var _ :- Need(unlocked, Locked);
      unlocked := false;
      var _ :- UpdateReserves(Get(ledger.balances, (token0, self)), Get(ledger.balances, (token1, self)),
                        reserve0, reserve1, env.timestamp);
      unlocked := true;
      return Ok(());
    }

    method TransferFromBody(env: Env, from: Address, to: Address, value: nat) returns (r: Result<()>)
      modifies this, ledger
      ensures match TransferFromCall(old(View()), env, from, to, value)
              case Ok(st) => r == Ok(()) && View() == st
              case Revert(reason) => r == Revert(reason)
    {
      if Get(allowance, (from, env.sender)) != TWO_256 - 1 {
        var left :- SafeSub(Get(allowance, (from, env.sender)), value);
        allowance := allowance[(from, env.sender) := left];
      }
      r := MoveBetween(from, to, value);
    }

    method Dispatch(env: Env, call: Call) returns (r: Result<()>)
      modifies this, ledger
      ensures match Execute(old(View()), env, call)
              case Ok(st) => r == Ok(()) && View() == st
              case Revert(reason) => r == Revert(reason)
      decreases call, 2
    {
      match call {
        case Mint(to) =>
          var _ :- MintBody(env, to);
        case Burn(to) =>
          var _ :- BurnBody(env, to);
        case Swap(amount0Out, amount1Out, to, callback) =>
          var _ :- SwapBody(env, amount0Out, amount1Out, to, callback);
        case Skim(to) =>
          var _ :- SkimBody(to);
        case Sync =>
          var _ :- SyncBody(env);
        case Transfer(to, value) =>
          var _ :- MoveBetween(env.sender, to, value);
        case TransferFrom(from, to, value) =>
          var _ :- TransferFromBody(env, from, to, value);
        case Approve(spender, value) =>
          allowance := allowance[(env.sender, spender) := value];
        case Permit(owner, spender, value, deadline, signer) =>
          var _ :- Need(deadline >= env.timestamp, Expired);
          var _ :- Need(signer != 0 && signer == owner, InvalidSignature);
          allowance := allowance[(owner, spender) := value];
      }
      return Ok(());
    }

    /** A transaction or message call to the pair: what it changed is undone if it reverts. */
    method Run(env: Env, call: Call) returns (r: Result<()>)
      modifies this, ledger
      ensures View() == Try(old(View()), env, call)
      ensures r.Ok? <==> Execute(old(View()), env, call).Ok?
      decreases call, 3
    {
      var before := View();
      r := Dispatch(env, call);
      if r.Revert? {
        Restore(before);
      }
    }

    method Restore(st: State)
      requires st.pair.self == self && st.pair.token0 == token0 && st.pair.token1 == token1
      modifies this, ledger
      ensures View() == st
    {
      var p := st.pair;
      reserve0, reserve1, blockTimestampLast := p.reserve0, p.reserve1, p.blockTimestampLast;
      price0CumulativeLast, price1CumulativeLast := p.price0CumulativeLast, p.price1CumulativeLast;
      kLast, unlocked := p.kLast, p.unlocked;
      totalSupply, balanceOf, allowance := p.totalSupply, p.balanceOf, p.allowance;
      ledger.balances := st.tokens;
    }
  }
}
