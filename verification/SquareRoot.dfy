/** `Math.sqrt`: the Babylonian loop, proved against the integer square root. */
module SquareRoot {
  import opened Arithmetic
  import opened Evm

  /** The integer square root. */
  function ISqrt(y: nat): (z: nat)
    ensures z * z <= y < (z + 1) * (z + 1)
  {
    if y == 0 then 0 else
      var z := ISqrt(y - 1);
      if (z + 1) * (z + 1) <= y then z + 1 else z
  }

  lemma SquareMonotone(a: nat, b: nat)
    requires a <= b
    ensures a * a <= b * b
  {
    assert b * b - a * a == (b - a) * (b + a);
  }

  lemma SquareReflects(a: nat, b: nat)
    requires a * a < b * b
    ensures a < b
  {
    if b <= a {
      SquareMonotone(b, a);
    }
  }

  /** The bounds in the contract of `ISqrt` determine it. */
  lemma ISqrtUnique(y: nat, z: nat)
    requires z * z <= y < (z + 1) * (z + 1)
    ensures z == ISqrt(y)
  {
    SquareReflects(z, ISqrt(y) + 1);
    SquareReflects(ISqrt(y), z + 1);
  }

  lemma ISqrtSquare(z: nat)
    ensures ISqrt(z * z) == z
  {
    assert (z + 1) * (z + 1) == z * z + 2 * z + 1;
    ISqrtUnique(z * z, z);
  }

  /** The arithmetic mean of two numbers, even rounded down, bounds their product. */
  lemma MeanBoundsProduct(x: nat, q: nat, t: nat)
    requires x + q <= 2 * t + 1
    ensures x * (q + 1) <= (t + 1) * (t + 1)
  {
    SquareMonotone(x + q + 1, 2 * t + 2);
    var d := x - q - 1;
    assert 0 <= d * d;
    assert (x + q + 1) * (x + q + 1) == 4 * (x * (q + 1)) + d * d;
    assert (2 * t + 2) * (2 * t + 2) == 4 * ((t + 1) * (t + 1));
  }

  /** Any step of the iteration stays at or above the root. */
  lemma BabylonianStepFromAbove(y: nat, x: nat, q: nat, t: nat)
    requires x > 0 && q == y / x && t == (q + x) / 2
    ensures ISqrt(y) <= t
  {
    DivBounds(y, x);
    MeanBoundsProduct(x, q, t);
    SquareReflects(ISqrt(y), t + 1);
  }

  /** When a step does not decrease the candidate, the candidate is at or below the root. */
  lemma BabylonianStop(y: nat, z: nat, q: nat)
    requires z > 0 && q == y / z && z <= (q + z) / 2
    ensures z <= ISqrt(y)
  {
    DivBounds(y, z);
    MulMonotone(z, q, z);
    SquareReflects(z, ISqrt(y) + 1);
  }

  /** No intermediate sum of the loop leaves 256 bits, and the candidates stay above 1. */
  lemma BabylonianStepFits(y: nat, x: nat, q: nat)
    requires 3 < y && 2 <= x <= y / 2 + 1 && q == y / x
    ensures q + x <= y
    ensures 2 <= (q + x) / 2
  {
    DivBounds(y, x);
    QuotientAtMost(y, x, q);
    SumFits(y, x, q);
  }

  lemma SumFits(y: nat, x: nat, q: nat)
    requires 3 < y && 2 <= x <= y / 2 + 1 && x * q <= y < x * (q + 1)
    ensures q + x <= y
    ensures 2 <= (q + x) / 2
  {
    if q >= 2 {
      MulMonotone(1, x - 1, q - 1);
      assert x * q == (x - 1) * (q - 1) + x + q - 1;
    } else {
      MulMonotone(q + 1, 2, x);
    }
  }

  /** The iteration starts at or above the root. */
  lemma BabylonianStart(y: nat)
    requires 3 < y
    ensures ISqrt(y) <= y / 2 + 1
    ensures ISqrt(y) <= y
  {
    BabylonianStepFromAbove(y, 1, y, (y + 1) / 2);
  }

  method Sqrt(y: uint256) returns (z: uint256)
    ensures z == ISqrt(y)
  {
    hide ISqrt, PowerOfTwo;
    if y > 3 {
      z := y;
      var x: uint256 := y / 2 + 1;
      BabylonianStart(y);
      while x < z
        invariant 2 <= x <= y / 2 + 1 && 0 < z
        invariant x < z || x == (y / z + z) / 2
        invariant ISqrt(y) <= x && ISqrt(y) <= z
        decreases z
      {
        BabylonianStepFits(y, x, y / x);
        BabylonianStepFromAbove(y, x, y / x, (y / x + x) / 2);
        z := x;
        x := (y / x + x) / 2;
      }
      BabylonianStop(y, z, y / z);
    } else if y != 0 {
      z := 1;
      ISqrtUnique(y, z);
    } else {
      z := 0;
      ISqrtUnique(y, z);
    }
  }
}
