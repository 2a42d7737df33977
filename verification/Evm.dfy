/** The parts of the EVM and of Solidity that the contracts rely on: word sizes, reverting
    arithmetic, reverts as results, and mappings with a default of zero. */
module Evm {
  import opened Arithmetic

  type uint32 = x: int | 0 <= x < TWO_32
  type uint112 = x: int | 0 <= x < TWO_112
  type uint224 = x: int | 0 <= x < TWO_224
  type uint256 = x: int | 0 <= x < TWO_256
  type Address = x: int | 0 <= x < TWO_160

  /** An address that code or a key can act from: never the zero address. */
  type Account = x: int | 0 < x < TWO_160 witness 1

  const TWO_32: int := 0x1_0000_0000
  const TWO_160: int := 0x1_0000_0000_0000_0000_0000_0000_0000_0000_0000_0000

  const TWO_112: int := 0x1_0000_0000_0000_0000_0000_0000_0000
  const TWO_224: int := 0x1_0000_0000_0000_0000_0000_0000_0000_0000_0000_0000_0000_0000_0000_0000

  /** The size of a word is kept as a power, so that the number stays out of proofs that do not need it. */
  const WORD_BITS: nat := 256
  const TWO_256: int := PowerOfTwo(WORD_BITS)

  function PowerOfTwo(bits: nat): (p: nat)
    ensures p > 0
  {
    if bits == 0 then 1 else 2 * PowerOfTwo(bits - 1)
  }

  lemma {:induction false} PowerOfTwoSum(a: nat, b: nat)
    ensures PowerOfTwo(a + b) == PowerOfTwo(a) * PowerOfTwo(b)
  {
    if a > 0 {
      PowerOfTwoSum(a - 1, b);
    }
  }

  lemma {:induction false} PowIsPowerOfTwo(n: nat)
    ensures Pow(256, n) == PowerOfTwo(8 * n)
  {
    if n > 0 {
      PowIsPowerOfTwo(n - 1);
      PowerOfEight();
      PowerOfTwoSum(8, 8 * (n - 1));
    }
  }

  lemma PowerOfTwoDoubled(n: nat, p: nat)
    requires PowerOfTwo(n) == p
    ensures PowerOfTwo(2 * n) == p * p
  {
    PowerOfTwoSum(n, n);
  }

  lemma PowerOfEight()
    ensures PowerOfTwo(8) == 256
  {
  }

  lemma PowersOfTwo()
    ensures PowerOfTwo(8) == 256 && PowerOfTwo(16) == 0x1_0000 && PowerOfTwo(80) == 0x1_0000_0000_0000_0000_0000
    ensures PowerOfTwo(160) == TWO_160
    ensures PowerOfTwo(256) == TWO_224 * TWO_32
  {
    hide PowerOfTwo;
    PowerOfEight();
    PowerOfTwoDoubled(8, 0x100);
    PowerOfTwoSum(16, 64);
    PowerOfTwoDoubled(16, 0x1_0000);
    PowerOfTwoDoubled(32, 0x1_0000_0000);
    PowerOfTwoDoubled(80, 0x1_0000_0000_0000_0000_0000);
    PowerOfTwoDoubled(64, 0x1_0000_0000_0000_0000);
    PowerOfTwoDoubled(128, 0x1_0000_0000_0000_0000_0000_0000_0000_0000);
  }

  lemma WordSize()
    ensures TWO_256 == TWO_224 * TWO_32
  {
    hide PowerOfTwo;
    PowersOfTwo();
  }

  /** Unchecked 256-bit arithmetic. */
  function Wrap(x: int): uint256 {
    x % TWO_256
  }

  lemma PowConstants()
    ensures Pow(256, 2) == 0x1_0000 && Pow(256, 10) == 0x1_0000_0000_0000_0000_0000
    ensures Pow(256, 1) == 256 && Pow(256, 20) == TWO_160 && Pow(256, 32) == TWO_256
  {
    hide PowerOfTwo;
    PowIsPowerOfTwo(32);
    PowIsPowerOfTwo(20);
    PowIsPowerOfTwo(10);
    PowIsPowerOfTwo(2);
    PowIsPowerOfTwo(1);
    PowersOfTwo();
  }

  /** Why a transaction reverted; the names follow the messages of the `require` statements. */
  datatype Reason =
    | Locked | Overflow | ArithmeticOverflow | ArithmeticUnderflow | DivisionByZero
    | InsufficientLiquidityMinted | InsufficientLiquidityBurned
    | InsufficientOutputAmount | InsufficientLiquidity | InvalidTo
    | InsufficientInputAmount | K | TransferFailed | CalleeFailed
    | Expired | InvalidSignature | NotAContract
    | AmountOutLessThanAmountIn | BalanceOutLessThanBalanceIn

  datatype Result<+T> = Ok(value: T) | Revert(reason: Reason) {
    predicate IsFailure() { Revert? }

    function PropagateFailure<U>(): Result<U>
      requires Revert?
    {
      Revert(reason)
    }

    function Extract(): T
      requires Ok?
    {
      value
    }
  }

  /** Solidity's `require`. */
  function Need(condition: bool, reason: Reason): Result<()> {
    if condition then Ok(()) else Revert(reason)
  }

  function SafeAdd(x: nat, y: nat): Result<uint256> {
    if x + y < TWO_256 then Ok(x + y) else Revert(ArithmeticOverflow)
  }

  function SafeSub(x: nat, y: nat): Result<nat> {
    if y <= x then Ok(x - y) else Revert(ArithmeticUnderflow)
  }

  function SafeMul(x: nat, y: nat): Result<uint256> {
    if 0 <= x * y < TWO_256 then Ok(x * y) else Revert(ArithmeticOverflow)
  }

  function SafeDiv(x: nat, y: nat): Result<nat> {
    if y != 0 then Ok(x / y) else Revert(DivisionByZero)
  }

  function Min(x: nat, y: nat): nat {
    if x < y then x else y
  }

  /** Reading a Solidity mapping: a key that was never written holds zero. */
  function Get<K>(m: map<K, nat>, k: K): nat {
    if k in m then m[k] else 0
  }

  /** The effect of `m[from] -= value; m[to] += value`, also when `from` and `to` are the same key. */
  function Move<K>(m: map<K, nat>, from: K, to: K, value: nat): map<K, nat>
    requires value <= Get(m, from)
  {
    var debited := m[from := Get(m, from) - value];
    debited[to := Get(debited, to) + value]
  }

  /** The sum of all entries of a mapping. */
  ghost function Sum<X>(m: map<X, nat>): nat {
    if m == map[] then 0 else
      var k :| k in m;
      m[k] + Sum(m - {k})
  }

  /** The sum does not depend on the order in which entries are picked. */
  lemma {:induction false} SumRemove<X>(m: map<X, nat>, k: X)
    requires k in m
    ensures Sum(m) == m[k] + Sum(m - {k})
    decreases m
  {
    var j :| j in m && Sum(m) == m[j] + Sum(m - {j});
    if j != k {
      SumRemove(m - {j}, k);
      SumRemove(m - {k}, j);
      assert m - {j} - {k} == m - {k} - {j};
    }
  }

  lemma SumUpdate<X>(m: map<X, nat>, k: X, v: nat)
    ensures Sum(m[k := v]) == Sum(m) - Get(m, k) + v
  {
    var n := m[k := v];
    SumRemove(n, k);
    if k in m {
      SumRemove(m, k);
      assert n - {k} == m - {k};
    } else {
      assert n - {k} == m;
    }
  }

  lemma SumMove<X>(m: map<X, nat>, from: X, to: X, value: nat)
    requires value <= Get(m, from)
    ensures Sum(Move(m, from, to, value)) == Sum(m)
  {
    var debited := m[from := Get(m, from) - value];
    SumUpdate(m, from, Get(m, from) - value);
    SumUpdate(debited, to, Get(debited, to) + value);
  }

  lemma SumBounds<X>(m: map<X, nat>, k: X)
    ensures Get(m, k) <= Sum(m)
  {
    if k in m {
      SumRemove(m, k);
    }
  }
}
