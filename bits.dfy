/** Bitwise exclusive or and population count on unsigned words, as used by
    the Hamming distances (`__builtin_popcount(a ^ b)`, `bitset::count`). */
module Bits {
  import opened Arith

  /** a ^ b, bit by bit from the least significant bit. */
  function Xor(a: nat, b: nat): nat
    decreases a + b
  {
    if a == 0 && b == 0 then 0
    else 2 * Xor(a / 2, b / 2) + (if a % 2 == b % 2 then 0 else 1)
  }

  /** Number of one bits. */
  function Popcount(n: nat): nat {
    if n == 0 then 0 else n % 2 + Popcount(n / 2)
  }

  lemma {:induction false} XorComm(a: nat, b: nat)
    ensures Xor(a, b) == Xor(b, a)
    decreases a + b
  {
    if a != 0 || b != 0 {
      XorComm(a / 2, b / 2);
    }
  }

  /** a ^ b is zero exactly when a == b. */
  lemma {:induction false} XorZero(a: nat, b: nat)
    ensures Xor(a, b) == 0 <==> a == b
    decreases a + b
  {
    if a != 0 || b != 0 {
      XorZero(a / 2, b / 2);
      if a % 2 == b % 2 && a / 2 == b / 2 {
        assert a == 2 * (a / 2) + a % 2;
      }
    }
  }

  /** Words of w bits have an exclusive or of w bits. */
  lemma {:induction false} XorBound(a: nat, b: nat, w: nat)
    requires a < Pow2(w) && b < Pow2(w)
    ensures Xor(a, b) < Pow2(w)
    decreases w
  {
    if w > 0 && (a != 0 || b != 0) {
      XorBound(a / 2, b / 2, w - 1);
    }
  }

  /** A word of w bits has at most w one bits. */
  lemma {:induction false} PopcountBound(n: nat, w: nat)
    requires n < Pow2(w)
    ensures Popcount(n) <= w
    decreases w
  {
    if w > 0 && n != 0 {
      PopcountBound(n / 2, w - 1);
    }
  }

  lemma {:induction false} PopcountZero(n: nat)
    ensures Popcount(n) == 0 <==> n == 0
  {
    if n != 0 {
      assert n % 2 == 1 || n / 2 != 0;
      if n / 2 != 0 {
        PopcountZero(n / 2);
      }
    }
  }
}
