/**
  Unsigned machine words seen as natural numbers: powers of two, single-bit
  tests and bitwise OR. Border codes are built with `|=` and inspected with
  `code & (1 << i)`; this module gives both a meaning on `nat`.
 */
module Bits {

  /** 2^e, the value of `1 << e`. */
  function Pow2(e: nat): (r: nat)
    ensures r >= 1
  {
    if e == 0 then 1 else 2 * Pow2(e - 1)
  }

  /** Bit i of c is set, i.e. `(c & (1 << i)) != 0`. */
  predicate Bit(c: nat, i: nat)
  {
    if i == 0 then c % 2 == 1 else Bit(c / 2, i - 1)
  }

  /** Bitwise OR, one binary digit at a time from the least significant end. */
  function Or(a: nat, b: nat): nat
    decreases a + b
  {
    if a == 0 && b == 0 then 0
    else 2 * Or(a / 2, b / 2) + (if a % 2 == 1 || b % 2 == 1 then 1 else 0)
  }

  lemma {:induction false} BitOfZero(i: nat)
    ensures !Bit(0, i)
  {
    if i > 0 {
      BitOfZero(i - 1);
    }
  }

  /** Bit i of `a | b` is set exactly when it is set in a or in b. */
  lemma {:induction false} OrBit(a: nat, b: nat, i: nat)
    ensures Bit(Or(a, b), i) <==> Bit(a, i) || Bit(b, i)
    decreases i
  {
    if a == 0 && b == 0 {
      BitOfZero(i);
    } else if i > 0 {
      OrBit(a / 2, b / 2, i - 1);
    }
  }

  /** `a | b` has no bit at or above k when neither operand has. */
  lemma {:induction false} OrBound(a: nat, b: nat, k: nat)
    requires a < Pow2(k) && b < Pow2(k)
    ensures Or(a, b) < Pow2(k)
  {
    if k > 0 && !(a == 0 && b == 0) {
      OrBound(a / 2, b / 2, k - 1);
    }
  }

  /** `1 << j` has exactly bit j set. */
  lemma {:induction false} BitOfPow2(j: nat, i: nat)
    ensures Bit(Pow2(j), i) <==> i == j
  {
    if j == 0 {
      if i > 0 {
        BitOfZero(i - 1);
      }
    } else if i > 0 {
      BitOfPow2(j - 1, i - 1);
    }
  }

  lemma {:induction false} Pow2Double(n: nat)
    requires 1 <= n
    ensures Pow2(n) == 2 * Pow2(n - 1)
  {
  }

  lemma {:induction false} Pow2Monotone(j: nat, k: nat)
    requires j <= k
    ensures Pow2(j) <= Pow2(k)
  {
    if j < k {
      Pow2Monotone(j, k - 1);
    }
  }

  /** A number below 2^k has no bit at or above k. */
  lemma {:induction false} BitAboveBound(c: nat, k: nat, i: nat)
    requires c < Pow2(k) && k <= i
    ensures !Bit(c, i)
  {
    if k == 0 {
      BitOfZero(i);
    } else {
      BitAboveBound(c / 2, k - 1, i - 1);
    }
  }

  /** A number below 2^k is zero exactly when none of its k low bits is set. */
  lemma {:induction false} ZeroIffNoLowBits(c: nat, k: nat)
    requires c < Pow2(k)
    ensures c == 0 ==> forall i :: 0 <= i < k ==> !Bit(c, i)
    ensures (forall i :: 0 <= i < k ==> !Bit(c, i)) ==> c == 0
  {
    if c == 0 {
      forall i | 0 <= i < k
        ensures !Bit(c, i)
      {
        BitOfZero(i);
      }
    } else if forall i :: 0 <= i < k ==> !Bit(c, i) {
      assert k > 0;
      forall i | 0 <= i < k - 1
        ensures !Bit(c / 2, i)
      {
        assert !Bit(c, i + 1);
      }
      ZeroIffNoLowBits(c / 2, k - 1);
      assert !Bit(c, 0);
      assert false;
    }
  }
}
