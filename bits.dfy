/** Bitwise operations on natural numbers, bit by bit from the least significant
    one, and the few facts about them that the id layout relies on. */
module Bits {

  /** 2 to the power n. */
  function Pow2(n: nat): (r: nat)
    ensures r >= 1
  {
    if n == 0 then 1 else 2 * Pow2(n - 1)
  }

  /** Powers of two multiply by adding their exponents. */
  lemma {:induction false} Pow2Add(a: nat, b: nat)
    ensures Pow2(a + b) == Pow2(a) * Pow2(b)
  {
    if a > 0 {
      Pow2Add(a - 1, b);
      assert Pow2(a + b) == 2 * Pow2(a - 1 + b);
    }
  }

  /** The powers of two the 64-bit layout uses. */
  lemma Pow2Values()
    ensures Pow2(4) == 0x10 && Pow2(12) == 0x1000
    ensures Pow2(32) == 0x1_0000_0000 && Pow2(40) == 0x100_0000_0000
    ensures Pow2(52) == 0x10_0000_0000_0000
    ensures Pow2(63) == 0x8000_0000_0000_0000
    ensures Pow2(64) == 0x1_0000_0000_0000_0000
  {
    assert Pow2(4) == 0x10 && Pow2(8) == 0x100;
    Pow2Add(8, 8);
    assert Pow2(16) == 0x1_0000;
    Pow2Add(16, 16);
    assert Pow2(32) == 0x1_0000_0000;
    Pow2Add(32, 8);
    assert Pow2(40) == 0x100_0000_0000;
    Pow2Add(40, 12);
    assert Pow2(52) == 0x10_0000_0000_0000;
    Pow2Add(52, 11);
    Pow2Add(52, 12);
    assert Pow2(11) == 0x800;
  }

  /** Powers of two grow with the exponent. */
  lemma {:induction false} Pow2Monotone(k: nat, n: nat)
    requires k <= n
    ensures Pow2(k) <= Pow2(n)
  {
    if k < n {
      Pow2Monotone(k, n - 1);
    }
  }

  /** The three bitwise operators of C# on longs. */
  datatype Op = And | Or | Xor

  /** An operator on one pair of bits. */
  function Bit(op: Op, a: nat, b: nat): nat
    requires a <= 1 && b <= 1
  {
    match op
    case And => if a == 1 && b == 1 then 1 else 0
    case Or => if a == 1 || b == 1 then 1 else 0
    case Xor => if a != b then 1 else 0
  }

  /** `op` applied to the low `n` bits of `x` and `y`; the result has `n` bits. */
  function Bitwise(op: Op, x: nat, y: nat, n: nat): (r: nat)
    ensures r < Pow2(n)
  {
    if n == 0 then 0 else Bit(op, x % 2, y % 2) + 2 * Bitwise(op, x / 2, y / 2, n - 1)
  }

  /** Operands below 2^k give a result below 2^k, whatever the width. */
  lemma {:induction false} BitwiseBelow(op: Op, x: nat, y: nat, n: nat, k: nat)
    requires x < Pow2(k) && y < Pow2(k)
    ensures Bitwise(op, x, y, n) < Pow2(k)
  {
    if n > 0 {
      if k == 0 {
        BitwiseBelow(op, 0, 0, n - 1, 0);
      } else {
        BitwiseBelow(op, x / 2, y / 2, n - 1, k - 1);
      }
    }
  }

  /** `x & y` is at most `y`. */
  lemma {:induction false} AndBounded(x: nat, y: nat, n: nat)
    ensures Bitwise(And, x, y, n) <= y
  {
    if n > 0 {
      AndBounded(x / 2, y / 2, n - 1);
    }
  }

  /** All three operators are symmetric. */
  lemma {:induction false} BitwiseCommutes(op: Op, x: nat, y: nat, n: nat)
    ensures Bitwise(op, x, y, n) == Bitwise(op, y, x, n)
  {
    if n > 0 {
      BitwiseCommutes(op, x / 2, y / 2, n - 1);
    }
  }

  /** `x | 0 == x` for an `n`-bit `x`. */
  lemma {:induction false} OrZero(x: nat, n: nat)
    requires x < Pow2(n)
    ensures Bitwise(Or, x, 0, n) == x
  {
    if n > 0 {
      OrZero(x / 2, n - 1);
    }
  }

  /** `x & 0 == 0`. */
  lemma {:induction false} AndZero(x: nat, n: nat)
    ensures Bitwise(And, x, 0, n) == 0
  {
    if n > 0 {
      AndZero(x / 2, n - 1);
    }
  }

  /** `x ^ x == 0`. */
  lemma {:induction false} XorSelf(x: nat, n: nat)
    ensures Bitwise(Xor, x, x, n) == 0
  {
    if n > 0 {
      XorSelf(x / 2, n - 1);
    }
  }

  /** Or-ing a value whose low `k` bits are clear with a value below 2^k is
      addition: the two occupy disjoint bits. */
  lemma {:induction false} OrDisjoint(x: nat, y: nat, k: nat, n: nat)
    requires k <= n && y < Pow2(k) && x * Pow2(k) < Pow2(n)
    ensures Bitwise(Or, x * Pow2(k), y, n) == x * Pow2(k) + y
  {
    if k == 0 {
      OrZero(x, n);
    } else {
      var a := x * Pow2(k);
      assert a == 2 * (x * Pow2(k - 1));
      assert a % 2 == 0 && a / 2 == x * Pow2(k - 1);
      OrDisjoint(x, y / 2, k - 1, n - 1);
    }
  }

  /** And-ing with the mask of the low `k` bits keeps the remainder of `x`
      modulo 2^k: what is removed is a multiple `q` of 2^k. */
  lemma {:induction false} AndLowMask(x: nat, k: nat, n: nat) returns (q: nat)
    requires k <= n
    ensures x == q * Pow2(k) + Bitwise(And, x, Pow2(k) - 1, n)
  {
    if k == 0 {
      AndZero(x, n);
      q := x;
    } else {
      var q' := AndLowMask(x / 2, k - 1, n - 1);
      assert q' * Pow2(k) == 2 * (q' * Pow2(k - 1));
      q := q';
    }
  }

  /** All ones xor-ed with all ones above bit k leaves exactly the low `k` bits
      set. */
  lemma {:induction false} XorHighOnes(k: nat, n: nat)
    requires k <= n
    ensures Pow2(k) <= Pow2(n)
    ensures Bitwise(Xor, Pow2(n) - 1, Pow2(n) - Pow2(k), n) == Pow2(k) - 1
  {
    Pow2Monotone(k, n);
    if k == 0 {
      XorSelf(Pow2(n) - 1, n);
    } else {
      XorHighOnes(k - 1, n - 1);
    }
  }
}
