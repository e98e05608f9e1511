// Unsigned machine words as naturals: powers of two, bits, bitwise or and xor.
module Bits {

  const TWO16: nat := 0x1_0000
  const TWO32: nat := 0x1_0000_0000
  const TWO64: nat := 0x1_0000_0000_0000_0000

  function Pow2(n: nat): (p: nat)
    ensures p >= 1
  {
    if n == 0 then 1 else 2 * Pow2(n - 1)
  }

  // Bit number i of a, counted from the least significant one.
  predicate Bit(a: nat, i: nat) {
    NthBit(a, i)
  }

  predicate NthBit(a: nat, i: nat) {
    if i == 0 then a % 2 == 1 else NthBit(a / 2, i - 1)
  }

  // The C operator `|` on unsigned operands.
  function BitOr(a: nat, b: nat): nat
    decreases a + b
  {
    if a == 0 then b
    else if b == 0 then a
    else 2 * BitOr(a / 2, b / 2) + (if a % 2 == 1 || b % 2 == 1 then 1 else 0)
  }

  // The C operator `^` on unsigned operands.
  function BitXor(a: nat, b: nat): nat
    decreases a + b
  {
    if a == 0 then b
    else if b == 0 then a
    else 2 * BitXor(a / 2, b / 2) + (if a % 2 != b % 2 then 1 else 0)
  }

  lemma {:induction false} NoBits(i: nat)
    ensures !Bit(0, i)
  {
    if i > 0 { NoBits(i - 1); }
  }

  // `|` acts on every bit separately.
  lemma {:induction false} BitOfOr(a: nat, b: nat, i: nat)
    ensures Bit(BitOr(a, b), i) <==> Bit(a, i) || Bit(b, i)
    decreases i
  {
    NoBits(i);
    if a != 0 && b != 0 && i > 0 {
      BitOfOr(a / 2, b / 2, i - 1);
      assert BitOr(a, b) / 2 == BitOr(a / 2, b / 2);
    }
  }

  lemma {:induction false} BitOfPow2(k: nat, i: nat)
    ensures Bit(Pow2(k), i) <==> i == k
    decreases i
  {
    if i == 0 {
    } else if k == 0 {
      NoBits(i - 1);
    } else {
      assert Pow2(k) / 2 == Pow2(k - 1);
      BitOfPow2(k - 1, i - 1);
    }
  }

  // The mask with exactly the n low bits set.
  lemma {:induction false} BitOfMask(n: nat, i: nat)
    ensures Bit(Pow2(n) - 1, i) <==> i < n
    decreases i
  {
    if n == 0 {
      NoBits(i);
    } else if i > 0 {
      assert (Pow2(n) - 1) / 2 == Pow2(n - 1) - 1;
      BitOfMask(n - 1, i - 1);
    }
  }

  // A word is determined by its bits.
  lemma {:induction false} SameBits(a: nat, b: nat, n: nat)
    requires a < Pow2(n) && b < Pow2(n)
    requires forall i :: 0 <= i < n ==> (Bit(a, i) <==> Bit(b, i))
    ensures a == b
  {
    if n > 0 {
      forall i | 0 <= i < n - 1
        ensures Bit(a / 2, i) <==> Bit(b / 2, i)
      {
        assert Bit(a, i + 1) <==> Bit(b, i + 1);
      }
      SameBits(a / 2, b / 2, n - 1);
      assert Bit(a, 0) <==> Bit(b, 0);
    }
  }

  lemma {:induction false} OrBound(a: nat, b: nat, n: nat)
    requires a < Pow2(n) && b < Pow2(n)
    ensures BitOr(a, b) < Pow2(n)
  {
    if n > 0 && a != 0 && b != 0 {
      OrBound(a / 2, b / 2, n - 1);
    }
  }

  // The C operator `<<` before the result is cut to its width.
  function Shl(x: nat, n: nat): nat {
    if n == 0 then x else 2 * Shl(x, n - 1)
  }

  lemma {:induction false} ShlSum(x: nat, y: nat, n: nat)
    ensures Shl(x + y, n) == Shl(x, n) + Shl(y, n)
  {
    if n > 0 { ShlSum(x, y, n - 1); }
  }

  lemma {:induction false} ShlAdd(x: nat, m: nat, n: nat)
    ensures Shl(Shl(x, m), n) == Shl(x, m + n)
  {
    if n > 0 { ShlAdd(x, m, n - 1); }
  }

  lemma {:induction false} ShlMul(x: nat, n: nat)
    ensures Shl(x, n) == x * Pow2(n)
  {
    if n > 0 { ShlMul(x, n - 1); }
  }

  lemma {:induction false} ShlBound(x: nat, k: nat, n: nat)
    requires x < Pow2(k)
    ensures Shl(x, n) + Pow2(n) <= Pow2(k + n)
  {
    if n > 0 { ShlBound(x, k, n - 1); }
  }

  // Operands without a common bit: `|` and `^` are addition.
  lemma {:induction false} DisjointAdd(a: nat, x: nat, p: nat)
    requires a < Pow2(p)
    ensures BitOr(a, Shl(x, p)) == a + Shl(x, p)
    ensures BitXor(a, Shl(x, p)) == a + Shl(x, p)
  {
    if p > 0 {
      DisjointAdd(a / 2, x, p - 1);
    }
  }

  lemma {:induction false} PowAdd(a: nat, b: nat)
    ensures Pow2(a + b) == Pow2(a) * Pow2(b)
  {
    if a > 0 {
      PowAdd(a - 1, b);
      assert Pow2(a + b) == 2 * Pow2(a - 1 + b);
    }
  }

  lemma {:induction false} PowMonotone(a: nat, b: nat)
    requires a <= b
    ensures Pow2(a) <= Pow2(b)
  {
    if a < b { PowMonotone(a, b - 1); }
  }

  lemma PowValues()
    ensures Pow2(7) == 128
    ensures Pow2(25) == 0x200_0000
    ensures Pow2(28) == 0x1000_0000
    ensures Pow2(29) == 0x2000_0000
    ensures Pow2(31) == 0x8000_0000
    ensures Pow2(32) == TWO32
    ensures Pow2(35) == 0x8_0000_0000
    ensures Pow2(36) == 0x10_0000_0000
    ensures Pow2(57) == 0x200_0000_0000_0000
    ensures Pow2(63) == 0x8000_0000_0000_0000
    ensures Pow2(64) == TWO64
  {
    assert Pow2(7) == 128;
    assert Pow2(14) == 128 * 128 by { PowAdd(7, 7); }
    assert Pow2(28) == 0x1000_0000 by { PowAdd(14, 14); }
    assert Pow2(25) == 0x200_0000;
    assert Pow2(31) == 0x8000_0000;
    assert Pow2(32) == TWO32;
    assert Pow2(35) == 0x8_0000_0000;
    assert Pow2(57) == 0x200_0000_0000_0000 by { PowAdd(28, 29); }
    assert Pow2(63) == 0x8000_0000_0000_0000 by { PowAdd(28, 35); }
    assert Pow2(64) == TWO64;
  }
}
