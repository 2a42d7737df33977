/** What each entry point of the pair contract does, as a function from the state before a
    transaction to the state after it or to the reason it reverts. The class `Pair.UniswapV2Pair`
    is verified against these functions, and the properties of the contract are proved of them. */
module PairModel {
  import opened Arithmetic
  import opened Evm
  import opened SquareRoot

  const MINIMUM_LIQUIDITY: nat := 1000

  /** Balances of all ERC-20 tokens, by token and holder. */
  type Tokens = map<(Address, Address), nat>

  /** The storage of one pair; `self` is the address it is deployed at. */
  datatype Pair = Pair(
    self: Account,
    token0: Address,
    token1: Address,
    reserve0: uint112,
    reserve1: uint112,
    blockTimestampLast: uint32,
    price0CumulativeLast: uint256,
    price1CumulativeLast: uint256,
    kLast: uint256,
    unlocked: bool,
    totalSupply: uint256,
    balanceOf: map<Address, nat>,
    allowance: map<(Address, Address), nat>)

  datatype State = State(pair: Pair, tokens: Tokens) {
    /** What the pair itself holds of its two tokens. */
    function Balance0(): nat { Get(tokens, (pair.token0, pair.self)) }
    function Balance1(): nat { Get(tokens, (pair.token1, pair.self)) }
  }

  /** A pair as the factory leaves it. */
  function InitialPair(self: Account, token0: Address, token1: Address): Pair {
    Pair(self, token0, token1, 0, 0, 0, 0, 0, 0, true, 0, map[], map[])
  }

  /** What a call can observe of its surroundings; `feeTo` is the factory's current setting. */
  datatype Env = Env(sender: Account, timestamp: nat, feeTo: Address) {
    predicate FeeOn() { feeTo != 0 }
  }

  /** The external functions of the pair. `Swap` carries what the callee does when it is called
      back. `Permit` stands for a call whose signature recovers to `signer`. */
  datatype Call =
    | Mint(to: Address)
    | Burn(to: Address)
    | Swap(amount0Out: nat, amount1Out: nat, to: Address, callback: seq<CalleeAction>)
    | Skim(to: Address)
    | Sync
    | Transfer(to: Address, value: nat)
    | TransferFrom(from: Address, to: Address, value: nat)
    | Approve(spender: Address, value: nat)
    | Permit(owner: Address, spender: Address, value: nat, deadline: nat, signer: Address)

  /** A step of the code behind `uniswapV2Call`: any change of any token balance, a call back into
      the pair whose failure is caught, or giving up. */
  datatype CalleeAction =
    | SetTokens(tokens: Tokens)
    | CallPair(sender: Account, call: Call)
    | Abort

  // ---- UQ112x112 ----

  function Encode(y: uint112): uint224 {
    assert y * TWO_112 < TWO_112 * TWO_112;
    y * TWO_112
  }

  function UqDiv(x: uint224, y: uint112): uint224
    requires y != 0
  {
    DivAtMost(x, y);
    x / y
  }

  // ---- ERC-20 ----

  function TokenTransfer(tokens: Tokens, token: Address, from: Address, to: Address, value: nat): Result<Tokens> {
    if value <= Get(tokens, (token, from)) then Ok(Move(tokens, (token, from), (token, to), value))
    else Revert(TransferFailed)
  }

  function MintShares(p: Pair, to: Address, value: nat): Result<Pair> {
    var supply :- SafeAdd(p.totalSupply, value);
    var balance :- SafeAdd(Get(p.balanceOf, to), value);
    Ok(p.(totalSupply := supply, balanceOf := p.balanceOf[to := balance]))
  }

  function BurnShares(p: Pair, from: Address, value: nat): Result<Pair> {
    var balance :- SafeSub(Get(p.balanceOf, from), value);
    var supply :- SafeSub(p.totalSupply, value);
    Ok(p.(balanceOf := p.balanceOf[from := balance], totalSupply := supply))
  }

  function MoveShares(p: Pair, from: Address, to: Address, value: nat): Result<Pair> {
    var debit :- SafeSub(Get(p.balanceOf, from), value);
    var debited := p.balanceOf[from := debit];
    var credit :- SafeAdd(Get(debited, to), value);
    Ok(p.(balanceOf := debited[to := credit]))
  }

  function SpendAllowance(p: Pair, owner: Address, spender: Address, value: nat): Result<Pair> {
    var allowed := Get(p.allowance, (owner, spender));
    if allowed == TWO_256 - 1 then Ok(p) else
      var left :- SafeSub(allowed, value);
      Ok(p.(allowance := p.allowance[(owner, spender) := left]))
  }

  // ---- the pair ----

  /** The accumulator after `elapsed` more seconds at the price `ofReserve / perReserve`. */
  function Accumulate(cumulative: uint256, ofReserve: uint112, perReserve: uint112, elapsed: uint32): uint256
    requires perReserve != 0
  {
    Wrap(cumulative + UqDiv(Encode(ofReserve), perReserve) * elapsed)
  }

  function Update(p: Pair, balance0: nat, balance1: nat, reserve0: uint112, reserve1: uint112, now: nat): Result<Pair> {
    var _ :- Need(balance0 < TWO_112 && balance1 < TWO_112, Overflow);
    var timestamp := now % TWO_32;
    var elapsed := (timestamp - p.blockTimestampLast) % TWO_32;
    var accrued :=
      if elapsed > 0 && reserve0 != 0 && reserve1 != 0 then
        p.(price0CumulativeLast := Accumulate(p.price0CumulativeLast, reserve1, reserve0, elapsed),
           price1CumulativeLast := Accumulate(p.price1CumulativeLast, reserve0, reserve1, elapsed))
      else p;
    Ok(accrued.(reserve0 := balance0, reserve1 := balance1, blockTimestampLast := timestamp))
  }

  /** The shares minted to the protocol when the root of k grew from `rootKLast` to `rootK`. */
  function FeeLiquidity(supply: uint256, rootK: nat, rootKLast: nat): Result<nat>
    requires rootKLast < rootK
  {
    var numerator :- SafeMul(supply, rootK - rootKLast);
    var fiveRoots :- SafeMul(rootK, 5);
    var denominator :- SafeAdd(fiveRoots, rootKLast);
    SafeDiv(numerator, denominator)
  }

  function MintFee(p: Pair, feeTo: Address): Result<Pair> {
    if feeTo != 0 then
      if p.kLast == 0 then Ok(p) else
        var k :- SafeMul(p.reserve0, p.reserve1);
        var rootK := ISqrt(k);
        var rootKLast := ISqrt(p.kLast);
        if rootK <= rootKLast then Ok(p) else
          var liquidity :- FeeLiquidity(p.totalSupply, rootK, rootKLast);
          if liquidity > 0 then MintShares(p, feeTo, liquidity) else Ok(p)
    else
      Ok(p.(kLast := 0))
  }

  /** With the protocol's fee on, the product of the new reserves is recorded. */
  function RecordK(p: Pair, feeOn: bool): Result<Pair> {
    if feeOn then
      var k :- SafeMul(p.reserve0, p.reserve1);
      Ok(p.(kLast := k))
    else Ok(p)
  }

  /** How `mint` and `burn` end: the reserves follow the balances, and k is recorded. */
  function Settle(p: Pair, balance0: nat, balance1: nat, reserve0: uint112, reserve1: uint112, env: Env): Result<Pair> {
    var p1 :- Update(p, balance0, balance1, reserve0, reserve1, env.timestamp);
    var p2 :- RecordK(p1, env.FeeOn());
    Ok(p2.(unlocked := true))
  }

  /** The shares a deposit is worth, after minting the locked minimum on the first one. */
  function DepositShares(p: Pair, amount0: nat, amount1: nat): Result<(Pair, nat)> {
    if p.totalSupply == 0 then
      var product :- SafeMul(amount0, amount1);
      var liquidity :- SafeSub(ISqrt(product), MINIMUM_LIQUIDITY);
      var p1 :- MintShares(p, 0, MINIMUM_LIQUIDITY);
      Ok((p1, liquidity))
    else
      var scaled0 :- SafeMul(amount0, p.totalSupply);
      var share0 :- SafeDiv(scaled0, p.reserve0);
      var scaled1 :- SafeMul(amount1, p.totalSupply);
      var share1 :- SafeDiv(scaled1, p.reserve1);
      Ok((p, Min(share0, share1)))
  }

  /** The end of `mint`, once the deposit is valued. */
  function CreditShares(p: Pair, liquidity: nat, balance0: nat, balance1: nat, env: Env, to: Address): Result<Pair> {
    var _ :- Need(liquidity > 0, InsufficientLiquidityMinted);
    var p1 :- MintShares(p, to, liquidity);
    Settle(p1, balance0, balance1, p.reserve0, p.reserve1, env)
  }

  /** The rest of `mint`, once the protocol's fee is minted. */
  function MintAfterFee(p: Pair, balance0: nat, balance1: nat, env: Env, to: Address): Result<(Pair, nat)>
    requires p.reserve0 <= balance0 && p.reserve1 <= balance1
  {
    var (p1, liquidity) :- DepositShares(p, balance0 - p.reserve0, balance1 - p.reserve1);
    var p2 :- CreditShares(p1, liquidity, balance0, balance1, env, to);
    Ok((p2, liquidity))
  }

  function MintCall(st: State, env: Env, to: Address): Result<(State, nat)> {
    var _ :- Need(st.pair.unlocked, Locked);
    var p0 := st.pair.(unlocked := false);
    var balance0, balance1 := st.Balance0(), st.Balance1();
    var _ :- SafeSub(balance0, p0.reserve0);
    var _ :- SafeSub(balance1, p0.reserve1);
    var p1 :- MintFee(p0, env.feeTo);
    var (p2, liquidity) :- MintAfterFee(p1, balance0, balance1, env, to);
    Ok((State(p2, st.tokens), liquidity))
  }

  /** The part of a balance that `liquidity` out of `supply` shares is worth. */
  function ProRata(liquidity: nat, balance: nat, supply: nat): Result<nat> {
    var scaled :- SafeMul(liquidity, balance);
    SafeDiv(scaled, supply)
  }

  function BurnCall(st: State, env: Env, to: Address): Result<(State, (nat, nat))> {
    var _ :- Need(st.pair.unlocked, Locked);
    var p0 := st.pair.(unlocked := false);
    var liquidity := Get(p0.balanceOf, p0.self);
    var p1 :- MintFee(p0, env.feeTo);
    var amount0 :- ProRata(liquidity, st.Balance0(), p1.totalSupply);
    var amount1 :- ProRata(liquidity, st.Balance1(), p1.totalSupply);
    var _ :- Need(amount0 > 0 && amount1 > 0, InsufficientLiquidityBurned);
    var p2 :- BurnShares(p1, p0.self, liquidity);
    var tokens1 :- TokenTransfer(st.tokens, p0.token0, p0.self, to, amount0);
    var tokens2 :- TokenTransfer(tokens1, p0.token1, p0.self, to, amount1);
    var st2 := State(p2, tokens2);
    var p3 :- Settle(p2, st2.Balance0(), st2.Balance1(), p0.reserve0, p0.reserve1, env);
    Ok((State(p3, tokens2), (amount0, amount1)))
  }

  /** What came in on one side of a swap, given the balance afterwards. */
  function AmountIn(balance: nat, reserve: nat, amountOut: nat): nat
    requires amountOut <= reserve
  {
    if balance > reserve - amountOut then balance - (reserve - amountOut) else 0
  }

  /** A balance, in thousandths, less three thousandths of what came in. */
  function Adjusted(balance: nat, amountIn: nat): Result<nat> {
    var scaled :- SafeMul(balance, 1000);
    var fee :- SafeMul(amountIn, 3);
    SafeSub(scaled, fee)
  }

  /** The checks on the balances that a swap leaves behind. */
  function CheckK(balance0: nat, balance1: nat, reserve0: uint112, reserve1: uint112, amount0Out: nat,
                  amount1Out: nat): Result<()>
    requires amount0Out <= reserve0 && amount1Out <= reserve1
  {
    var amount0In := AmountIn(balance0, reserve0, amount0Out);
    var amount1In := AmountIn(balance1, reserve1, amount1Out);
    if amount0In == 0 && amount1In == 0 then Revert(InsufficientInputAmount) else
      var adjusted0 := Adjusted(balance0, amount0In);
      if adjusted0.Revert? then Revert(adjusted0.reason) else
        var adjusted1 := Adjusted(balance1, amount1In);
        if adjusted1.Revert? then Revert(adjusted1.reason) else
          var left := SafeMul(adjusted0.value, adjusted1.value);
          if left.Revert? then Revert(left.reason) else
            var product := SafeMul(reserve0, reserve1);
            if product.Revert? then Revert(product.reason) else
              var right := SafeMul(product.value, 1000 * 1000);
              if right.Revert? then Revert(right.reason) else
                Need(left.value >= right.value, K)
  }

  /** The optimistic transfer on one side of a swap. */
  function PayOut(tokens: Tokens, token: Address, from: Address, to: Address, amountOut: nat): Result<Tokens> {
    if amountOut > 0 then TokenTransfer(tokens, token, from, to, amountOut) else Ok(tokens)
  }

  function SwapCall(st: State, env: Env, amount0Out: nat, amount1Out: nat, to: Address,
                    callback: seq<CalleeAction>): Result<State>
    decreases callback, 1
  {
    var _ :- Need(st.pair.unlocked, Locked);
    var p0 := st.pair.(unlocked := false);
    var _ :- Need(amount0Out > 0 || amount1Out > 0, InsufficientOutputAmount);
    var _ :- Need(amount0Out < p0.reserve0 && amount1Out < p0.reserve1, InsufficientLiquidity);
    var _ :- Need(to != p0.token0 && to != p0.token1, InvalidTo);
    var tokens1 :- PayOut(st.tokens, p0.token0, p0.self, to, amount0Out);
    var tokens2 :- PayOut(tokens1, p0.token1, p0.self, to, amount1Out);
    var st2 :- RunCallee(State(p0, tokens2), env, callback);
    var _ :- CheckK(st2.Balance0(), st2.Balance1(), p0.reserve0, p0.reserve1, amount0Out, amount1Out);
    var p3 :- Update(st2.pair, st2.Balance0(), st2.Balance1(), p0.reserve0, p0.reserve1, env.timestamp);
    Ok(State(p3.(unlocked := true), st2.tokens))
  }

  function SkimCall(st: State, to: Address): Result<State> {
    var _ :- Need(st.pair.unlocked, Locked);
    var p := st.pair;
    var excess0 :- SafeSub(st.Balance0(), p.reserve0);
    var tokens1 :- TokenTransfer(st.tokens, p.token0, p.self, to, excess0);
    var excess1 :- SafeSub(Get(tokens1, (p.token1, p.self)), p.reserve1);
    var tokens2 :- TokenTransfer(tokens1, p.token1, p.self, to, excess1);
    Ok(State(p, tokens2))
  }

  function SyncCall(st: State, env: Env): Result<State> {
    var _ :- Need(st.pair.unlocked, Locked);
    var p :- Update(st.pair, st.Balance0(), st.Balance1(), st.pair.reserve0, st.pair.reserve1, env.timestamp);
    Ok(State(p, st.tokens))
  }

  function TransferFromCall(st: State, env: Env, from: Address, to: Address, value: nat): Result<State> {
    var p1 :- SpendAllowance(st.pair, from, env.sender, value);
    var p2 :- MoveShares(p1, from, to, value);
    Ok(st.(pair := p2))
  }

  function PermitCall(st: State, env: Env, owner: Address, spender: Address, value: nat, deadline: nat,
                      signer: Address): Result<State>
  {
    var _ :- Need(deadline >= env.timestamp, Expired);
    var _ :- Need(signer != 0 && signer == owner, InvalidSignature);
    Ok(st.(pair := st.pair.(allowance := st.pair.allowance[(owner, spender) := value])))
  }

  /** Any external call; a revert leaves nothing behind. */
  function Execute(st: State, env: Env, call: Call): Result<State>
    decreases call, 2
  {
    match call
    case Mint(to) => var (st1, _) :- MintCall(st, env, to); Ok(st1)
    case Burn(to) => var (st1, _) :- BurnCall(st, env, to); Ok(st1)
    case Swap(amount0Out, amount1Out, to, callback) => SwapCall(st, env, amount0Out, amount1Out, to, callback)
    case Skim(to) => SkimCall(st, to)
    case Sync => SyncCall(st, env)
    case Transfer(to, value) => var p :- MoveShares(st.pair, env.sender, to, value); Ok(st.(pair := p))
    case TransferFrom(from, to, value) => TransferFromCall(st, env, from, to, value)
    case Approve(spender, value) =>
      Ok(st.(pair := st.pair.(allowance := st.pair.allowance[(env.sender, spender) := value])))
    case Permit(owner, spender, value, deadline, signer) =>
      PermitCall(st, env, owner, spender, value, deadline, signer)
  }

  /** A call whose failure the caller catches. */
  function Try(st: State, env: Env, call: Call): State
    decreases call, 3
  {
    match Execute(st, env, call)
    case Ok(st1) => st1
    case Revert(_) => st
  }

  /** The callee's code, run to its end. */
  function RunCallee(st: State, env: Env, actions: seq<CalleeAction>): Result<State>
    decreases actions, 0
  {
    if actions == [] then Ok(st) else
      match actions[0]
      case SetTokens(tokens) => RunCallee(st.(tokens := tokens), env, actions[1..])
      case CallPair(sender, call) =>
        assert call < actions[0];
        RunCallee(Try(st, env.(sender := sender), call), env, actions[1..])
      case Abort => Revert(CalleeFailed)
  }
}
