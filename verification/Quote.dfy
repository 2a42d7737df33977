/** The integer quote of a hop, and why the pair's own check accepts it. */
module Quote {
  import opened Arithmetic
  import opened Evm
  import opened PairModel

  const FEE_BASE: nat := 10000

  /** `getAmountOut`, in checked 256-bit arithmetic. */
  function GetAmountOut(amountIn: nat, reserveIn: nat, reserveOut: nat, fee: nat): Result<nat> {
    var kept :- SafeSub(FEE_BASE, fee);
    var amountInWithFee :- SafeMul(amountIn, kept);
    var numerator :- SafeMul(amountInWithFee, reserveOut);
    var scaled :- SafeMul(reserveIn, FEE_BASE);
    var denominator :- SafeAdd(scaled, amountInWithFee);
    SafeDiv(numerator, denominator)
  }

  /** What is left of an amount after the fee, in ten-thousandths. */
  function Weighted(amountIn: nat, fee: nat): nat
    requires fee <= FEE_BASE
  {
    MulMonotone(0, amountIn, FEE_BASE - fee);
    amountIn * (FEE_BASE - fee)
  }

  /** What the floor in the quote means. */
  ghost predicate IsQuote(amountIn: nat, reserveIn: nat, reserveOut: nat, fee: nat, out: nat) {
    && fee <= FEE_BASE
    && var weighted := Weighted(amountIn, fee);
    && 0 < reserveIn * FEE_BASE + weighted
    && out * (reserveIn * FEE_BASE + weighted) <= weighted * reserveOut < (out + 1) * (reserveIn * FEE_BASE + weighted)
  }

  lemma QuoteIsFloor(amountIn: nat, reserveIn: nat, reserveOut: nat, fee: nat)
    requires GetAmountOut(amountIn, reserveIn, reserveOut, fee).Ok?
    ensures IsQuote(amountIn, reserveIn, reserveOut, fee, GetAmountOut(amountIn, reserveIn, reserveOut, fee).value)
  {
    hide PowerOfTwo;
    var weighted := amountIn * (FEE_BASE - fee);
    DivBounds(weighted * reserveOut, reserveIn * FEE_BASE + weighted);
  }

  /** A quote never reaches the reserve it is paid from, as long as the other reserve is not empty. */
  lemma QuoteBelowReserve(amountIn: nat, reserveIn: nat, reserveOut: nat, fee: nat, out: nat)
    requires IsQuote(amountIn, reserveIn, reserveOut, fee, out) && reserveIn > 0 && reserveOut > 0
    ensures out < reserveOut
  {
    var weighted, scaled := amountIn * (FEE_BASE - fee), reserveIn * FEE_BASE;
    MulMonotone(1, reserveOut, scaled);
    assert reserveOut * (scaled + weighted) == reserveOut * scaled + weighted * reserveOut;
    CancelStrict(out, reserveOut, scaled + weighted);
  }

  /** No 112-bit amount and reserves overflow the quote. */
  lemma QuoteFits(amountIn: nat, reserveIn: uint112, reserveOut: uint112, fee: nat)
    requires amountIn < TWO_112 && fee <= FEE_BASE && reserveIn > 0
    ensures GetAmountOut(amountIn, reserveIn, reserveOut, fee).Ok?
  {
    WordSize();
    var kept := FEE_BASE - fee;
    MulMonotone(kept, FEE_BASE, amountIn);
    MulMonotone(0, amountIn, kept);
    var weighted := amountIn * kept;
    MulMonotone(0, weighted, reserveOut);
    MulMonotone(weighted, TWO_112 * FEE_BASE, reserveOut);
  }

  lemma Leftover(scaled: nat, weighted: nat, reserveOut: nat, out: nat)
    ensures (reserveOut - out) * (scaled + weighted)
         == reserveOut * scaled + (weighted * reserveOut - out * (scaled + weighted))
  {
  }

  /** What is left of the output reserve makes up for what came in, less 0.3%. */
  ghost predicate LeavesProduct(amountIn: nat, reserveIn: nat, reserveOut: nat, out: nat) {
    reserveIn * reserveOut * 1000 <= (reserveOut - out) * (reserveIn * 1000 + amountIn * 997)
  }

  /** At a fee of at least 0.3% the quote leaves enough. */
  lemma QuoteLeavesProduct(amountIn: nat, reserveIn: nat, reserveOut: nat, fee: nat, out: nat)
    requires IsQuote(amountIn, reserveIn, reserveOut, fee, out) && 30 <= fee && out <= reserveOut
    ensures LeavesProduct(amountIn, reserveIn, reserveOut, out)
  {
    var weighted, scaled := amountIn * (FEE_BASE - fee), reserveIn * FEE_BASE;
    Leftover(scaled, weighted, reserveOut, out);
    MulMonotone(FEE_BASE - fee, 9970, amountIn);
    MulMonotone(scaled + weighted, scaled + amountIn * 9970, reserveOut - out);
    assert (reserveOut - out) * (scaled + amountIn * 9970)
        == (reserveOut - out) * (reserveIn * 1000 + amountIn * 997) * 10;
    assert reserveOut * scaled == reserveIn * reserveOut * 1000 * 10;
  }

  /** At the pair's own fee the quote leaves nothing on the table. */
  lemma QuoteIsTight(amountIn: nat, reserveIn: nat, reserveOut: nat, out: nat)
    requires IsQuote(amountIn, reserveIn, reserveOut, 30, out) && out < reserveOut
    ensures (reserveOut - (out + 1)) * (reserveIn * 1000 + amountIn * 997) < reserveIn * reserveOut * 1000
  {
    var weighted, scaled := amountIn * 9970, reserveIn * FEE_BASE;
    Leftover(scaled, weighted, reserveOut, out + 1);
    assert (reserveOut - (out + 1)) * (scaled + weighted)
        == (reserveOut - (out + 1)) * (reserveIn * 1000 + amountIn * 997) * 10;
    assert reserveOut * scaled == reserveIn * reserveOut * 1000 * 10;
  }

  // ---- the pair's check ----

  /** Both balances less three thousandths of what came in still cover the old product. */
  ghost predicate KKept(balance0: nat, balance1: nat, in0: nat, in1: nat, reserve0: nat, reserve1: nat) {
    (balance0 * 1000 - in0 * 3) * (balance1 * 1000 - in1 * 3) >= reserve0 * reserve1 * (1000 * 1000)
  }

  /** The K check with its 256-bit bounds out of the way: balances of 112 bits never overflow it. */
  lemma CheckKMeaning(balance0: nat, balance1: nat, reserve0: uint112, reserve1: uint112, amount0Out: nat,
                      amount1Out: nat)
    requires balance0 < TWO_112 && balance1 < TWO_112 && amount0Out <= reserve0 && amount1Out <= reserve1
    ensures var in0, in1 := AmountIn(balance0, reserve0, amount0Out), AmountIn(balance1, reserve1, amount1Out);
      CheckK(balance0, balance1, reserve0, reserve1, amount0Out, amount1Out)
      == if in0 == 0 && in1 == 0 then Revert(InsufficientInputAmount)
         else if KKept(balance0, balance1, in0, in1, reserve0, reserve1) then Ok(())
         else Revert(K)
  {
    var in0, in1 := AmountIn(balance0, reserve0, amount0Out), AmountIn(balance1, reserve1, amount1Out);
    WordSize();
    assert in0 <= balance0 && in1 <= balance1;
    var adjusted0, adjusted1 := balance0 * 1000 - in0 * 3, balance1 * 1000 - in1 * 3;
    assert Adjusted(balance0, in0) == Ok(adjusted0) && Adjusted(balance1, in1) == Ok(adjusted1);
    ProductFits(adjusted0, adjusted1);
    ProductFits(reserve0 * 1000, reserve1 * 1000);
    assert reserve0 * 1000 * (reserve1 * 1000) == reserve0 * reserve1 * (1000 * 1000);
    ProductFits(reserve0, reserve1);
  }

  lemma ProductFits(a: nat, b: nat)
    requires a <= TWO_112 * 1000 && b <= TWO_112 * 1000
    ensures 0 <= a * b < TWO_256
  {
    WordSize();
    MulMonotone(a, TWO_112 * 1000, b);
    MulMonotone(b, TWO_112 * 1000, TWO_112 * 1000);
  }

  /** The check does not care which token is called which. */
  lemma CheckKSymmetric(balance0: nat, balance1: nat, reserve0: uint112, reserve1: uint112, amount0Out: nat,
                        amount1Out: nat)
    requires balance0 < TWO_112 && balance1 < TWO_112 && amount0Out <= reserve0 && amount1Out <= reserve1
    ensures CheckK(balance0, balance1, reserve0, reserve1, amount0Out, amount1Out)
         == CheckK(balance1, balance0, reserve1, reserve0, amount1Out, amount0Out)
  {
    hide CheckK;
    CheckKMeaning(balance0, balance1, reserve0, reserve1, amount0Out, amount1Out);
    CheckKMeaning(balance1, balance0, reserve1, reserve0, amount1Out, amount0Out);
    var in0, in1 := AmountIn(balance0, reserve0, amount0Out), AmountIn(balance1, reserve1, amount1Out);
    assert (balance0 * 1000 - in0 * 3) * (balance1 * 1000 - in1 * 3)
        == (balance1 * 1000 - in1 * 3) * (balance0 * 1000 - in0 * 3);
    assert reserve0 * reserve1 == reserve1 * reserve0;
  }

  /** The inequality of the K check holds for an output that leaves enough, also when the pair holds
      more than its reserves. */
  lemma LeftoverAccepted(amountIn: nat, balanceIn: nat, balanceOut: nat, reserveIn: nat, reserveOut: nat, out: nat)
    requires LeavesProduct(amountIn, reserveIn, reserveOut, out) && out <= reserveOut
    requires reserveIn + amountIn <= balanceIn && reserveOut - out <= balanceOut
    ensures KKept(balanceIn, balanceOut, balanceIn - reserveIn, balanceOut - (reserveOut - out), reserveIn, reserveOut)
  {
    var adjustedIn := balanceIn * 1000 - (balanceIn - reserveIn) * 3;
    var adjustedOut := balanceOut * 1000 - (balanceOut - (reserveOut - out)) * 3;
    var least := reserveIn * 1000 + amountIn * 997;
    MulMonotone(least, adjustedIn, (reserveOut - out) * 1000);
    MulMonotone((reserveOut - out) * 1000, adjustedOut, adjustedIn);
    assert least * ((reserveOut - out) * 1000) == (reserveOut - out) * least * 1000;
    assert reserveIn * reserveOut * (1000 * 1000) == reserveIn * reserveOut * 1000 * 1000;
  }

  /** At a fee of exactly 0.3% the pair accepts an amount if and only if it is at most the quote. */
  lemma AcceptedIffQuoted(amountIn: nat, reserveIn: uint112, reserveOut: uint112, out: nat, amountOut: nat)
    requires IsQuote(amountIn, reserveIn, reserveOut, 30, out) && out < reserveOut && amountIn > 0
    requires reserveIn + amountIn < TWO_112 && amountOut <= reserveOut
    ensures CheckK(reserveIn + amountIn, reserveOut - amountOut, reserveIn, reserveOut, 0, amountOut)
         == if amountOut <= out then Ok(()) else Revert(K)
  {
    hide CheckK, IsQuote;
    CheckKMeaning(reserveIn + amountIn, reserveOut - amountOut, reserveIn, reserveOut, 0, amountOut);
    var least := reserveIn * 1000 + amountIn * 997;
    if amountOut <= out {
      QuoteLeavesProduct(amountIn, reserveIn, reserveOut, 30, out);
      MulMonotone(reserveOut - out, reserveOut - amountOut, least);
    } else {
      QuoteIsTight(amountIn, reserveIn, reserveOut, out);
      MulMonotone(reserveOut - amountOut, reserveOut - (out + 1), least);
    }
    assert least * ((reserveOut - amountOut) * 1000) == (reserveOut - amountOut) * least * 1000;
    assert reserveIn * reserveOut * (1000 * 1000) == reserveIn * reserveOut * 1000 * 1000;
  }
}
