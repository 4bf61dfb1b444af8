/** Machine numbers, and bit operations on unsigned numbers of any width. */
module Bits {

  const TWO31: int := 0x8000_0000
  const TWO32: int := 0x1_0000_0000

  type byte = x: int | 0 <= x < 256

  type i32 = x: int | -TWO31 <= x < TWO31

  /** The conversion `int(n)` of a size. */
  function ToI32(n: nat): (r: i32)
    ensures r <= n && (n < TWO31 ==> r == n)
  {
    var r := n % TWO32;
    if r < TWO31 then r else r - TWO32
  }

  /** Bitwise or of unsigned numbers. On those a right shift by k divides by 2^k,
      a left shift multiplies, and a mask of k low bits takes the remainder. */
  function BitOr(a: nat, b: nat): nat {
    if a == 0 then b
    else (if a % 2 == 1 || b % 2 == 1 then 1 else 0) + 2 * BitOr(a / 2, b / 2)
  }

  function Pow2(k: nat): (r: nat)
    ensures r >= 1
  {
    if k == 0 then 1 else 2 * Pow2(k - 1)
  }

  /** Operands without a common bit add up. */
  lemma {:induction false} OrIsSum(a: nat, b: nat, k: nat)
    requires b < Pow2(k)
    ensures BitOr(a * Pow2(k), b) == a * Pow2(k) + b
    decreases k
  {
    if a == 0 {
    } else if k == 0 {
      OrZero(a);
    } else {
      var m := a * Pow2(k - 1);
      assert a * Pow2(k) == 2 * m;
      OrIsSum(a, b / 2, k - 1);
      assert b == 2 * (b / 2) + b % 2;
    }
  }

  lemma {:induction false} OrZero(a: nat)
    ensures BitOr(a, 0) == a
    decreases a
  {
    if a > 0 {
      OrZero(a / 2);
    }
  }

  lemma Pow2Values()
    ensures Pow2(2) == 4 && Pow2(4) == 16 && Pow2(6) == 64
  {
    assert Pow2(1) == 2 && Pow2(3) == 2 * Pow2(2) && Pow2(5) == 2 * Pow2(4);
  }

  lemma {:induction false} OrCommutes(a: nat, b: nat)
    ensures BitOr(a, b) == BitOr(b, a)
    decreases a
  {
    if a > 0 {
      if b == 0 { OrZero(a); } else { OrCommutes(a / 2, b / 2); }
    } else if b > 0 {
      OrZero(b);
    }
  }

  /** The number of bits up to the highest one set: 32 less the leading zeros. */
  function BitLength(x: nat): nat {
    if x == 0 then 0 else 1 + BitLength(x / 2)
  }

  lemma {:induction false} BitLengthBelow(x: nat, k: nat)
    ensures BitLength(x) <= k <==> x < Pow2(k)
    decreases k
  {
    if x > 0 && k > 0 {
      BitLengthBelow(x / 2, k - 1);
    }
  }
}
