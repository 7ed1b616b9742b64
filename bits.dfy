// Non-negative integers read as bit vectors: powers of two, single bits, and
// the bitwise AND of two non-negative integers.

module Bits {

  const TwoTo31: nat := 0x8000_0000
  const TwoTo32: nat := 0x1_0000_0000

  /** Number of bits in a JavaScript bitwise-operator operand. */
  const WordWidth: nat := 32

  function Pow2(n: nat): (r: nat)
    ensures r >= 1
  {
    if n == 0 then 1 else 2 * Pow2(n - 1)
  }

  lemma {:induction false} Pow2Add(a: nat, b: nat)
    ensures Pow2(a + b) == Pow2(a) * Pow2(b)
  {
    if a > 0 {
      Pow2Add(a - 1, b);
      assert Pow2(a + b) == 2 * Pow2(a - 1 + b);
    }
  }

  lemma {:induction false} Pow2Monotone(a: nat, b: nat)
    requires a <= b
    ensures Pow2(a) <= Pow2(b)
  {
    if a < b {
      Pow2Monotone(a, b - 1);
    }
  }

  /** The powers of two the 15-bit mask layout relies on. */
  lemma Pow2Catalog()
    ensures Pow2(4) == 16 && Pow2(15) == 32768 && Pow2(16) == 65536
  {
    assert Pow2(4) == 16;
    Pow2Add(4, 4);
    Pow2Add(8, 7);
    Pow2Add(8, 8);
  }

  /** The powers of two that bound a 32-bit word. */
  lemma Pow2Word()
    ensures Pow2(31) == TwoTo31 && Pow2(32) == TwoTo32
  {
    Pow2Catalog();
    Pow2Add(16, 15);
    Pow2Add(16, 16);
  }

  /** Bit i of m, counting from the least significant bit (bit 0). */
  predicate Bit(m: nat, i: nat)
    decreases i
  {
    if i == 0 then m % 2 == 1 else Bit(m / 2, i - 1)
  }

  /** A number below 2^n has no bit set at position n or above. */
  lemma {:induction false} BitBeyond(m: nat, n: nat, i: nat)
    requires m < Pow2(n) && n <= i
    ensures !Bit(m, i)
  {
    if i > 0 {
      if n == 0 {
        BitBeyond(m / 2, 0, i - 1);
      } else {
        BitBeyond(m / 2, n - 1, i - 1);
      }
    }
  }

  /** Two numbers below 2^n that agree on their n low bits are equal. */
  lemma {:induction false} BitsEqual(a: nat, b: nat, n: nat)
    requires a < Pow2(n) && b < Pow2(n)
    requires forall i | 0 <= i < n :: Bit(a, i) == Bit(b, i)
    ensures a == b
  {
    if n > 0 {
      assert Bit(a, 0) == Bit(b, 0);
      forall i | 0 <= i < n - 1
        ensures Bit(a / 2, i) == Bit(b / 2, i)
      {
        assert Bit(a, i + 1) == Bit(b, i + 1);
      }
      BitsEqual(a / 2, b / 2, n - 1);
    }
  }

  /** 2^n - 1 has exactly its n low bits set. */
  lemma {:induction false} LowOnesBit(n: nat, i: nat)
    ensures Bit(Pow2(n) - 1, i) <==> i < n
  {
    if n == 0 {
      BitBeyond(0, 0, i);
    } else if i > 0 {
      assert (Pow2(n) - 1) / 2 == Pow2(n - 1) - 1;
      LowOnesBit(n - 1, i - 1);
    }
  }

  /** The bitwise AND of two non-negative integers. */
  function And(a: nat, b: nat): (r: nat)
    ensures r <= a && r <= b
    decreases a
  {
    if a == 0 || b == 0 then 0
    else 2 * And(a / 2, b / 2) + (if a % 2 == 1 && b % 2 == 1 then 1 else 0)
  }

  /** And sets exactly the bits set in both operands. */
  lemma {:induction false} AndBit(a: nat, b: nat, i: nat)
    ensures Bit(And(a, b), i) <==> Bit(a, i) && Bit(b, i)
  {
    if a == 0 || b == 0 {
      BitBeyond(0, 0, i);
    } else if i > 0 {
      AndBit(a / 2, b / 2, i - 1);
    }
  }

  /** Masking with 2^i keeps bit i alone. */
  lemma {:induction false} AndPow2(m: nat, i: nat)
    ensures And(m, Pow2(i)) == if Bit(m, i) then Pow2(i) else 0
  {
    if m == 0 {
      BitBeyond(0, 0, i);
    } else if i > 0 {
      AndPow2(m / 2, i - 1);
    }
  }

  lemma {:induction false} AndSelf(a: nat)
    ensures And(a, a) == a
  {
    if a > 0 {
      AndSelf(a / 2);
    }
  }
}
