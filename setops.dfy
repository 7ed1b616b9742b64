// The two comparison predicates over the current environment's mask. Both
// are bitwise identities over JavaScript's `&`, which reads each operand as
// a 32-bit two's-complement word and yields a signed 32-bit integer.

module SetOps {
  import opened Bits
  import opened Encoder

  /** The unsigned 32-bit word holding the two's-complement bits of x. */
  function ToUint32(x: int): (r: nat)
    ensures r < TwoTo32
    ensures 0 <= x < TwoTo32 ==> r == x
  {
    x % TwoTo32
  }

  /** The signed reading of a 32-bit word. */
  function ToInt32(u: nat): (r: int)
    requires u < TwoTo32
    ensures -(TwoTo31 as int) <= r < TwoTo31
    ensures ToUint32(r) == u
  {
    if u < TwoTo31 then u else u - TwoTo32
  }

  /** JavaScript's `a & b` on integral operands. */
  function BitAnd(a: int, b: int): (r: int)
    ensures -(TwoTo31 as int) <= r < TwoTo31
    ensures 0 <= a < TwoTo31 ==> 0 <= r <= a
  {
    ToInt32(And(ToUint32(a), ToUint32(b)))
  }

  /** `(current & candidate) === current`: the current environment supports
      no capability that candidate lacks. */
  predicate IsSubsetOf(current: nat, candidate: int): (r: bool)
    ensures r ==> current < TwoTo31 && current <= ToUint32(candidate)
  {
    BitAnd(current, candidate) == current
  }

  /** `(current & candidate) === candidate`: the current environment supports
      every capability that candidate claims. */
  predicate IsSupersetOf(current: nat, candidate: int): (r: bool)
    ensures r ==> candidate < TwoTo31
    ensures r && current < TwoTo31 ==> 0 <= candidate <= current
  {
    BitAnd(current, candidate) == candidate
  }

  /** For a mask below 2^31 (every mask of the 15-probe catalog) the sign of
      the 32-bit result never comes into play. */
  lemma BitAndOfMask(current: nat, candidate: int)
    requires current < TwoTo31
    ensures BitAnd(current, candidate) == And(current, ToUint32(candidate))
  {
  }

  /** isSubsetOf holds exactly when every bit of the current mask is set in
      the candidate's 32-bit word. */
  lemma SubsetIffBitsContained(current: nat, candidate: int)
    requires current < TwoTo31
    ensures IsSubsetOf(current, candidate) ==>
      forall i | 0 <= i < WordWidth :: Bit(current, i) ==> Bit(ToUint32(candidate), i)
    ensures (forall i | 0 <= i < WordWidth :: Bit(current, i) ==> Bit(ToUint32(candidate), i)) ==>
      IsSubsetOf(current, candidate)
  {
    var u := ToUint32(candidate);
    var a := And(current, u);
    BitAndOfMask(current, candidate);
    forall i | 0 <= i < WordWidth
      ensures Bit(a, i) <==> Bit(current, i) && Bit(u, i)
    {
      AndBit(current, u, i);
    }
    if forall i | 0 <= i < WordWidth :: Bit(current, i) ==> Bit(u, i) {
      Pow2Word();
      BitsEqual(a, current, WordWidth);
    }
  }

  /** isSupersetOf holds exactly when the candidate is a 32-bit pattern all of
      whose bits are set in the current mask. */
  lemma SupersetIffBitsContained(current: nat, candidate: int)
    requires current < TwoTo31
    ensures IsSupersetOf(current, candidate) ==>
      0 <= candidate < TwoTo32 &&
      forall i | 0 <= i < WordWidth :: Bit(candidate, i) ==> Bit(current, i)
    ensures (0 <= candidate < TwoTo32 &&
      forall i | 0 <= i < WordWidth :: Bit(candidate, i) ==> Bit(current, i)) ==>
      IsSupersetOf(current, candidate)
  {
    var u := ToUint32(candidate);
    var a := And(current, u);
    BitAndOfMask(current, candidate);
    forall i | 0 <= i < WordWidth
      ensures Bit(a, i) <==> Bit(current, i) && Bit(u, i)
    {
      AndBit(current, u, i);
    }
    if 0 <= candidate < TwoTo32 && forall i | 0 <= i < WordWidth :: Bit(candidate, i) ==> Bit(current, i) {
      Pow2Word();
      BitsEqual(a, candidate, WordWidth);
    }
  }

  /** The current mask is both a subset and a superset of itself. */
  lemma Reflexive(current: nat)
    requires current < TwoTo31
    ensures IsSubsetOf(current, current) && IsSupersetOf(current, current)
  {
    BitAndOfMask(current, current);
    AndSelf(current);
  }

  /** Subset and superset together pin the candidate to the current mask. */
  lemma SubsetAndSupersetIffEqual(current: nat, candidate: int)
    requires current < TwoTo31
    ensures IsSubsetOf(current, candidate) && IsSupersetOf(current, candidate) <==> candidate == current
  {
    if candidate == current {
      Reflexive(current);
    }
  }

  /** Dropping bits from a candidate the current mask covers keeps it covered. */
  lemma SupersetDownwardClosed(current: nat, larger: nat, smaller: nat)
    requires current < TwoTo31
    requires IsSupersetOf(current, larger)
    requires And(larger, smaller) == smaller
    ensures IsSupersetOf(current, smaller)
  {
    SupersetIffBitsContained(current, larger);
    SupersetIffBitsContained(current, smaller);
    forall i | 0 <= i < WordWidth && Bit(smaller, i)
      ensures Bit(current, i)
    {
      AndBit(larger, smaller, i);
    }
  }

  /** Adding bits to a candidate that covers the current mask keeps it covering. */
  lemma SubsetUpwardClosed(current: nat, smaller: int, larger: int)
    requires current < TwoTo31
    requires IsSubsetOf(current, smaller)
    requires And(ToUint32(smaller), ToUint32(larger)) == ToUint32(smaller)
    ensures IsSubsetOf(current, larger)
  {
    SubsetIffBitsContained(current, smaller);
    SubsetIffBitsContained(current, larger);
    forall i | 0 <= i < WordWidth && Bit(current, i)
      ensures Bit(ToUint32(larger), i)
    {
      AndBit(ToUint32(smaller), ToUint32(larger), i);
    }
  }

  /** An empty current mask is a subset of every candidate and a superset of
      the empty candidate only; every mask is a superset of the empty one. */
  lemma ZeroMask(current: nat, candidate: int)
    requires current < TwoTo31
    ensures IsSubsetOf(0, candidate)
    ensures IsSupersetOf(0, candidate) <==> candidate == 0
    ensures IsSupersetOf(current, 0)
  {
    BitAndOfMask(0, candidate);
    BitAndOfMask(current, 0);
  }

  /** `Boolean(mask & (1 << i))` reads back probe i's verdict from the mask. */
  lemma MaskBitTest(v: seq<bool>, i: nat)
    requires i < |v| <= 31
    ensures BitAnd(Encode(v), Pow2(i)) != 0 <==> v[i]
  {
    Pow2Word();
    Pow2Monotone(|v|, 31);
    Pow2Monotone(i, 31);
    BitAndOfMask(Encode(v), Pow2(i));
    AndPow2(Encode(v), i);
    EncodeBit(v, i);
  }

  /** Every mask of an n-probe catalog lies between 0 and the full mask
      2^n - 1: it is a subset of the full mask, which is a superset of it. */
  lemma WithinFullMask(mask: nat, n: nat)
    requires mask < Pow2(n) && n < WordWidth
    ensures IsSubsetOf(mask, Pow2(n) - 1)
    ensures IsSupersetOf(Pow2(n) - 1, mask)
  {
    Pow2Word();
    Pow2Monotone(n, 31);
    SubsetIffBitsContained(mask, Pow2(n) - 1);
    SupersetIffBitsContained(Pow2(n) - 1, mask);
    forall i | 0 <= i < WordWidth
      ensures Bit(mask, i) ==> Bit(Pow2(n) - 1, i)
    {
      LowOnesBit(n, i);
      if i >= n {
        BitBeyond(mask, n, i);
      }
    }
  }

  /** A mask of an n-probe catalog (n < 32) never covers a candidate with
      bit n or any higher bit set. */
  lemma NoSupersetBeyondCatalog(mask: nat, n: nat, candidate: int, k: nat)
    requires mask < Pow2(n) && n < WordWidth && n <= k
    requires 0 <= candidate && Bit(candidate, k)
    ensures !IsSupersetOf(mask, candidate)
  {
    Pow2Word();
    Pow2Monotone(n, 31);
    SupersetIffBitsContained(mask, candidate);
    if k < WordWidth {
      BitBeyond(mask, n, k);
    } else if candidate < TwoTo32 {
      BitBeyond(candidate, WordWidth, k);
    }
  }
}
