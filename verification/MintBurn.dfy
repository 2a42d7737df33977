/** Minting and at once burning what was minted. */
module MintBurn {
  import opened Arithmetic
  import opened Evm
  import opened SquareRoot
  import opened PairModel
  import opened PairInvariants
  import opened PoolValue

  /** The three calls: `mint` to the user, the transfer of exactly the minted shares to the pair, and
      `burn`. The result carries the shares and the two amounts paid out. */
  function MintAndBurn(st: State, mintEnv: Env, user: Account, burnEnv: Env, to: Address)
    : Result<(State, nat, nat, nat)>
  {
    var (minted, liquidity) :- MintCall(st, mintEnv, user);
    var returned :- MoveShares(minted.pair, user, st.pair.self, liquidity);
    var (burned, (amount0, amount1)) :- BurnCall(minted.(pair := returned), burnEnv, to);
    Ok((burned, liquidity, amount0, amount1))
  }

  /** With k recorded as it stands, or no k recorded, no fee is minted. */
  lemma NoFeeWithoutGrowth(p: Pair, feeTo: Address)
    requires p.kLast == (if feeTo != 0 then PoolK(p) else 0)
    ensures MintFee(p, feeTo) == Ok(p)
  {
  }

  /** What one side pays back for a later deposit. */
  lemma LaterSide(reserve: nat, amount: nat, supply: nat, liquidity: nat, back: nat)
    requires supply > 0 && reserve > 0 && liquidity <= amount * supply / reserve
    requires back == liquidity * (reserve + amount) / (supply + liquidity)
    ensures back <= amount
  {
    DepositedSide(reserve, amount, supply, liquidity);
    assert liquidity * (reserve + amount) <= amount * (supply + liquidity);
    DivBounds(liquidity * (reserve + amount), supply + liquidity);
    CancelFactor(back, amount, supply + liquidity);
  }

  /** What one side pays back for the first deposit, when `locked` shares stay behind. */
  lemma FirstSide(reserve: nat, amount: nat, locked: nat, liquidity: nat, back: nat)
    requires locked + liquidity > 0
    requires back == liquidity * (reserve + amount) / (locked + liquidity)
    ensures back <= amount <==> liquidity * reserve < locked * amount + locked + liquidity
  {
    var supply := locked + liquidity;
    DivBounds(liquidity * (reserve + amount), supply);
    assert (amount + 1) * supply - liquidity * (reserve + amount)
        == locked * amount + locked + liquidity - liquidity * reserve;
    if back <= amount {
      MulMonotone(back + 1, amount + 1, supply);
    } else {
      MulMonotone(amount + 1, back, supply);
    }
  }

  /** What comes back when `mint` values the excess over the reserves of `p` at `liquidity` shares
      and `burn` redeems them. */
  ghost predicate RoundTrip(p: Pair, balance0: nat, balance1: nat, liquidity: nat, back0: nat, back1: nat) {
    && p.reserve0 <= balance0 && p.reserve1 <= balance1 && liquidity > 0
    && var shares := DepositShares(p, balance0 - p.reserve0, balance1 - p.reserve1);
    && shares.Ok? && shares.value.1 == liquidity
    && var supply := p.totalSupply + liquidity + (if p.totalSupply == 0 then MINIMUM_LIQUIDITY else 0);
    && back0 == liquidity * balance0 / supply
    && back1 == liquidity * balance1 / supply
  }

  /** The shares of a first deposit, besides the locked ones. */
  function FirstShares(deposit0: nat, deposit1: nat): int {
    assert 0 <= deposit0 * deposit1;
    ISqrt(deposit0 * deposit1) - MINIMUM_LIQUIDITY
  }

  lemma RoundTripAmounts(p: Pair, balance0: nat, balance1: nat, liquidity: nat, back0: nat, back1: nat)
    requires RoundTrip(p, balance0, balance1, liquidity, back0, back1)
    ensures var deposit0, deposit1 := balance0 - p.reserve0, balance1 - p.reserve1;
      if p.totalSupply > 0 then
        back0 <= deposit0 && back1 <= deposit1
      else
        && liquidity == FirstShares(deposit0, deposit1)
        && (back0 <= deposit0 <==> CoveredByLocked(liquidity, p.reserve0, deposit0))
        && (back1 <= deposit1 <==> CoveredByLocked(liquidity, p.reserve1, deposit1))
  {
    var deposit0, deposit1 := balance0 - p.reserve0, balance1 - p.reserve1;
    if p.totalSupply > 0 {
      DepositCredit(p, deposit0, deposit1);
      LaterSide(p.reserve0, deposit0, p.totalSupply, liquidity, back0);
      LaterSide(p.reserve1, deposit1, p.totalSupply, liquidity, back1);
    } else {
      FirstSide(p.reserve0, deposit0, MINIMUM_LIQUIDITY, liquidity, back0);
      FirstSide(p.reserve1, deposit1, MINIMUM_LIQUIDITY, liquidity, back1);
    }
  }

  /** The three calls perform such a round trip on the pair as `mint` finds it after its fee; the
      fee of the second call is nil. */
  lemma MintAndBurnEffect(st: State, mintEnv: Env, user: Account, burnEnv: Env, to: Address)
    requires Valid(st) && MintAndBurn(st, mintEnv, user, burnEnv, to).Ok?
    requires Get(st.pair.balanceOf, st.pair.self) == 0
    requires user != st.pair.self && mintEnv.feeTo == burnEnv.feeTo != st.pair.self
    ensures Entered(st, mintEnv.feeTo).Ok?
    ensures var p, p1 := st.pair, Entered(st, mintEnv.feeTo).value;
      var (_, liquidity, back0, back1) := MintAndBurn(st, mintEnv, user, burnEnv, to).value;
      && (p1.totalSupply == 0 <==> p.totalSupply == 0) && p1.reserve0 == p.reserve0 && p1.reserve1 == p.reserve1
      && RoundTrip(p1, st.Balance0(), st.Balance1(), liquidity, back0, back1)
  {
    hide MintFee, MintAfterFee, DepositShares, Settle, ProRata, TokenTransfer, BurnShares, PowerOfTwo, Sum, ISqrt;
    MintEffect(st, mintEnv, user);
    MintFeeEffect(st.pair.(unlocked := false), mintEnv.feeTo);
    var p1 := Entered(st, mintEnv.feeTo).value;
    var (minted, liquidity) := MintCall(st, mintEnv, user).value;
    MintAfterFeeEffect(p1, st.Balance0(), st.Balance1(), mintEnv, user);
    var returned := MoveShares(minted.pair, user, st.pair.self, liquidity).value;
    MoveSharesValid(minted.pair, user, st.pair.self, liquidity);
    NoFeeWithoutGrowth(returned.(unlocked := false), burnEnv.feeTo);
    BurnEffect(minted.(pair := returned), burnEnv, to);
  }

  /** A deposit into a pool that has shares never comes back larger. On the first deposit a side
      comes back no larger exactly when the shares' claim on what `sync` had booked before is
      covered by what the deposit leaves locked, which can be computed beforehand; with empty reserves
      it always is. */
  lemma MintThenBurnNeverProfits(st: State, mintEnv: Env, user: Account, burnEnv: Env, to: Address)
    requires Valid(st) && MintAndBurn(st, mintEnv, user, burnEnv, to).Ok?
    requires Get(st.pair.balanceOf, st.pair.self) == 0
    requires user != st.pair.self && mintEnv.feeTo == burnEnv.feeTo != st.pair.self
    ensures var (_, liquidity, amount0, amount1) := MintAndBurn(st, mintEnv, user, burnEnv, to).value;
      var deposit0, deposit1 := st.Balance0() - st.pair.reserve0, st.Balance1() - st.pair.reserve1;
      if st.pair.totalSupply > 0 then
        amount0 <= deposit0 && amount1 <= deposit1
      else
        && liquidity == FirstShares(deposit0, deposit1)
        && (amount0 <= deposit0 <==> CoveredByLocked(liquidity, st.pair.reserve0, deposit0))
        && (amount1 <= deposit1 <==> CoveredByLocked(liquidity, st.pair.reserve1, deposit1))
  {
    hide MintAndBurn, Entered, DepositShares, CoveredByLocked, RoundTrip, FirstShares;
    MintAndBurnEffect(st, mintEnv, user, burnEnv, to);
    var (_, liquidity, amount0, amount1) := MintAndBurn(st, mintEnv, user, burnEnv, to).value;
    RoundTripAmounts(Entered(st, mintEnv.feeTo).value, st.Balance0(), st.Balance1(), liquidity, amount0, amount1);
  }

  /** What the new shares claim of an earlier reserve is less than what the locked shares keep of
      the deposit, up to rounding. Without an earlier reserve this always holds. */
  predicate CoveredByLocked(liquidity: nat, reserve: nat, deposit: nat) {
    liquidity * reserve < MINIMUM_LIQUIDITY * deposit + MINIMUM_LIQUIDITY + liquidity
  }

  /** A pool without shares into whose reserves `booked` of each token was synced, with `deposit`
      more of each waiting. */
  function SyncedBeforeFirstMint(booked: uint112, deposit: nat): State {
    State(InitialPair(3, 1, 2).(reserve0 := booked, reserve1 := booked),
          map[(1, 3) := booked + deposit, (2, 3) := booked + deposit])
  }

  /** Such a pool is a new one to which tokens were sent before and after a `sync`. */
  lemma SyncedPoolIsReachable(booked: uint112, deposit: nat)
    ensures var empty := State(InitialPair(3, 1, 2), map[]);
      var steps := [TokenStep(map[(1, 3) := booked, (2, 3) := booked]),
                    CallStep(Env(4, 0, 0), Sync),
                    TokenStep(map[(1, 3) := booked + deposit, (2, 3) := booked + deposit])];
      Valid(empty) && LegalRun(empty, steps) && After(empty, steps) == SyncedBeforeFirstMint(booked, deposit)
  {
    hide Sum, Accumulate, PowerOfTwo;
    var empty := State(InitialPair(3, 1, 2), map[]);
    InitialIsValid(3, 1, 2, map[]);
    var sent, more := TokenStep(map[(1, 3) := booked, (2, 3) := booked]),
                      TokenStep(map[(1, 3) := booked + deposit, (2, 3) := booked + deposit]);
    var sync := CallStep(Env(4, 0, 0), Sync);
    assert [sent, sync, more][1..] == [sync, more] && [sync, more][1..] == [more] && [more][1..] == [];
    var st1 := Next(empty, sent);
    var st2 := Next(st1, sync);
    assert Execute(st1, Env(4, 0, 0), Sync) == SyncCall(st1, Env(4, 0, 0));
    assert After(st2, [more]) == Next(st2, more);
    assert After(st1, [sync, more]) == After(st2, [more]);
    assert Legal(empty, sent) && Legal(st1, sync) && Legal(st2, more);
    assert LegalRun(st2, [more]);
    assert LegalRun(st1, [sync, more]);
  }

  /** The same pool after the first mint to address 4, and after those shares came back to the pair. */
  function MintedOnce(booked: uint112, deposit: nat): Pair
    requires booked + deposit < TWO_112 && MINIMUM_LIQUIDITY < deposit
  {
    WordSize();
    InitialPair(3, 1, 2).(reserve0 := booked + deposit, reserve1 := booked + deposit, totalSupply := deposit,
                          balanceOf := map[0 := MINIMUM_LIQUIDITY, 4 := deposit - MINIMUM_LIQUIDITY])
  }

  lemma FirstShareCount(booked: uint112, deposit: nat)
    requires booked == 1_000_000 && deposit == 2000
    ensures var p := SyncedBeforeFirstMint(booked, deposit).pair.(unlocked := false);
      DepositShares(p, deposit, deposit) == Ok((p.(totalSupply := 1000, balanceOf := map[0 := 1000]), 1000))
  {
    hide ISqrt;
    WordSize();
    ISqrtSquare(deposit);
  }

  lemma FirstMint(booked: uint112, deposit: nat)
    requires booked == 1_000_000 && deposit == 2000
    ensures MintCall(SyncedBeforeFirstMint(booked, deposit), Env(4, 0, 0), 4)
         == Ok((SyncedBeforeFirstMint(booked, deposit).(pair := MintedOnce(booked, deposit)), 1000))
  {
    hide Accumulate, DepositShares, ISqrt;
    FirstShareCount(booked, deposit);
    assert map[0 := 1000][4 := 1000] == map[0 := 1000, 4 := 1000];
  }

  lemma RedeemFirst(booked: uint112, deposit: nat)
    requires booked == 1_000_000 && deposit == 2000
    ensures var st := SyncedBeforeFirstMint(booked, deposit);
      var returned := MoveShares(MintedOnce(booked, deposit), 4, 3, 1000);
      && returned.Ok?
      && BurnCall(st.(pair := returned.value), Env(4, 0, 0), 4).Ok?
      && BurnCall(st.(pair := returned.value), Env(4, 0, 0), 4).value.1 == (501_000, 501_000)
  {
    WordSize();
    var returned := MoveShares(MintedOnce(booked, deposit), 4, 3, 1000).value;
    assert Get(returned.balanceOf, 3) == 1000;
    assert ProRata(1000, booked + deposit, deposit) == Ok(501_000);
  }

  /** After a million of each token was synced, the first depositor of 2000 gets back 501000. */
  lemma FirstDepositCanProfit(booked: uint112, deposit: nat)
    requires booked == 1_000_000 && deposit == 2000
    ensures var st, env := SyncedBeforeFirstMint(booked, deposit), Env(4, 0, 0);
      && Valid(st)
      && MintAndBurn(st, env, 4, env, 4).Ok?
      && MintAndBurn(st, env, 4, env, 4).value.2 == 501_000 > st.Balance0() - st.pair.reserve0
  {
    hide MintCall, BurnCall, MoveShares;
    assert Sum<Address>(map[]) == 0;
    FirstMint(booked, deposit);
    RedeemFirst(booked, deposit);
  }
}
