// The expected detection results for the engines the test suite knows
// (Node.js v4.8.3, v6.4.0, and any engine with full support), and the
// suite's scenarios that replace the sandbox runner with a fake one.

module Expectations {
  import opened Bits
  import opened Catalog
  import opened Runner
  import opened Encoder
  import opened SetOps

  /** FULL_SET: every one of the 15 capabilities supported. */
  const FullSet: nat := 32767
  /** LESSER_SET: the mask Node.js v6.4.0 produces. */
  const LesserSet: nat := 26255
  /** (FULL_SET << 1) + 1: one bit above the catalog set as well. */
  const EvenFullerSet: nat := FullSet * 2 + 1

  /** Expected support under Node.js v4.8.3, in catalog order. */
  const SupportV4: seq<bool> := [
    true, true, false, true, false, false, false, true,
    false, true, true, false, false, true, true
  ]
  /** Expected support under Node.js v6.4.0, in catalog order. */
  const SupportV6: seq<bool> := [
    true, true, true, true, false, false, false, true,
    false, true, true, false, false, true, true
  ]
  /** Expected support on an engine that names every kind of function. */
  const SupportAll: seq<bool> := seq(15, _ => true)

  /** The mask of a vector: its first entry plus twice the mask of the rest. */
  lemma EncodeCons(b: bool, v: seq<bool>)
    ensures Encode([b] + v) == (if b then 1 else 0) + 2 * Encode(v)
  {
    assert ([b] + v)[1..] == v;
  }

  /** The mask of the last five v4.8.3 entries (bits 10 to 14). */
  lemma EncodeV4From10()
    ensures Encode([true, false, false, true, true]) == 25
  {
    var t, f := true, false;
    EncodeCons(t, []);
    EncodeCons(t, [t]);
    EncodeCons(f, [t, t]);
    EncodeCons(f, [f, t, t]);
    EncodeCons(t, [f, f, t, t]);
  }

  /** The mask of the last ten v4.8.3 entries (bits 5 to 14). */
  lemma EncodeV4From5()
    ensures Encode([false, false, true, false, true, true, false, false, true, true]) == 820
  {
    var t, f := true, false;
    EncodeV4From10();
    EncodeCons(t, [t, f, f, t, t]);
    EncodeCons(f, [t, t, f, f, t, t]);
    EncodeCons(t, [f, t, t, f, f, t, t]);
    EncodeCons(f, [t, f, t, t, f, f, t, t]);
    EncodeCons(f, [f, t, f, t, t, f, f, t, t]);
  }

  /** Node.js v4.8.3: bitFlags is 26251. */
  lemma EncodeV4()
    ensures Encode(SupportV4) == 26251
  {
    var t, f := true, false;
    EncodeV4From5();
    EncodeCons(f, [f, f, t, f, t, t, f, f, t, t]);
    EncodeCons(t, [f, f, f, t, f, t, t, f, f, t, t]);
    EncodeCons(f, [t, f, f, f, t, f, t, t, f, f, t, t]);
    EncodeCons(t, [f, t, f, f, f, t, f, t, t, f, f, t, t]);
    EncodeCons(t, [t, f, t, f, f, f, t, f, t, t, f, f, t, t]);
  }

  lemma V6ExtendsV4()
    ensures SupportV6 == SupportV4[2 := true]
  {
  }

  /** Node.js v6.4.0 differs from v4.8.3 only in newFunction (bit 2), so its
      mask is 26251 + 4 = LESSER_SET. */
  lemma EncodeV6()
    ensures SupportV6 == SupportV4[2 := true]
    ensures Encode(SupportV6) == Encode(SupportV4) + 4 == LesserSet
  {
    V6ExtendsV4();
    EncodeSetBit(SupportV4, 2);
    EncodeV4();
    Pow2Catalog();
  }

  /** Full support: bitFlags is FULL_SET. */
  lemma EncodeAll()
    ensures Encode(SupportAll) == FullSet
  {
    EncodeAllTrue(SupportAll);
    Pow2Catalog();
  }

  /** hasFullSupport is false under v4.8.3 (newFunction is missing). */
  lemma NotFullV4()
    ensures (NamesDistinct(); !HasFullSupport(SupportOf(Names, SupportV4)))
  {
    NamesDistinct();
    FullSupportIffAllSupported(Names, SupportV4);
    assert !SupportV4[2];
  }

  /** hasFullSupport is false under v6.4.0 (functionVariables is missing). */
  lemma NotFullV6()
    ensures (NamesDistinct(); !HasFullSupport(SupportOf(Names, SupportV6)))
  {
    NamesDistinct();
    FullSupportIffAllSupported(Names, SupportV6);
    assert !SupportV6[4];
  }

  /** hasFullSupport holds when every probe succeeds. */
  lemma FullWhenAllSupported()
    ensures (NamesDistinct(); HasFullSupport(SupportOf(Names, SupportAll)))
  {
    NamesDistinct();
    FullSupportIffAllSupported(Names, SupportAll);
  }

  /** (FULL_SET << 1) + 1 is 2^16 - 1: the full mask of a catalog one probe
      longer, so it has bit 15 set. */
  lemma EvenFullerSetBits()
    ensures EvenFullerSet == Pow2(|Names| + 1) - 1
    ensures Bit(EvenFullerSet, |Names|)
  {
    Pow2Catalog();
    LowOnesBit(16, 15);
  }

  /** LESSER_SET lacks functionVariables (bit 4). */
  lemma LesserSetLacksFunctionVariables()
    ensures !Bit(LesserSet, 4)
  {
    assert Bit(LesserSet, 4) == Bit(1640, 0);
  }

  /** Any catalog mask is a subset of FULL_SET; one with bit 4
      (functionVariables) set is not a subset of LESSER_SET. */
  lemma OneFailureMask(mask: nat)
    requires mask < Pow2(|Names|) && Bit(mask, 4)
    ensures IsSubsetOf(mask, FullSet) && !IsSubsetOf(mask, LesserSet)
  {
    Pow2Catalog();
    WithinFullMask(mask, |Names|);
    LesserSetLacksFunctionVariables();
    SubsetIffBitsContained(mask, LesserSet);
  }

  /** A mask with every catalog bit set is FULL_SET: a superset of
      LESSER_SET, and not of (FULL_SET << 1) + 1. */
  lemma AllSupportedMask(mask: nat)
    requires mask < Pow2(|Names|)
    requires forall i | 0 <= i < |Names| :: Bit(mask, i)
    ensures mask == FullSet
    ensures IsSupersetOf(mask, LesserSet) && !IsSupersetOf(mask, EvenFullerSet)
  {
    Pow2Catalog();
    forall i | 0 <= i < |Names|
      ensures Bit(mask, i) == Bit(Pow2(|Names|) - 1, i)
    {
      LowOnesBit(|Names|, i);
    }
    BitsEqual(mask, Pow2(|Names|) - 1, |Names|);
    WithinFullMask(LesserSet, |Names|);
    EvenFullerSetBits();
    NoSupersetBeyondCatalog(mask, |Names|, EvenFullerSet, |Names|);
  }

  /** A mask with no catalog bit set is 0. */
  lemma NoneSupportedMask(mask: nat)
    requires mask < Pow2(|Names|)
    requires forall i | 0 <= i < |Names| :: !Bit(mask, i)
    ensures mask == 0
  {
    forall i | 0 <= i < |Names|
      ensures Bit(mask, i) == Bit(0, i)
    {
      BitBeyond(0, 0, i);
    }
    BitsEqual(mask, 0, |Names|);
  }

  /** The fake runner of the isSubsetOf test: its first call evaluates to
      false, every later call to true. */
  class FirstCallFalsy {
    var first: bool

    constructor ()
      ensures first
    {
      first := true;
    }

    method Run() returns (o: Outcome)
      modifies this
      ensures o == if old(first) then Falsy else Truthy
      ensures !first
    {
      if first {
        first := false;
        o := Falsy;
      } else {
        o := Truthy;
      }
    }
  }

  /** The isSubsetOf test: with only the first probe failing, the mask is a
      subset of FULL_SET but not of LESSER_SET. */
  method IsSubsetOfScenario() returns (ofFull: bool, ofLesser: bool)
    ensures ofFull && !ofLesser
  {
    var runner := new FirstCallFalsy();
    var outcomes: seq<Outcome> := [];
    while |outcomes| < |Names|
      invariant |outcomes| <= |Names|
      invariant runner.first <==> outcomes == []
      invariant forall i | 0 <= i < |outcomes| :: outcomes[i] == if i == 0 then Falsy else Truthy
    {
      var o := runner.Run();
      outcomes := outcomes + [o];
    }
    NamesDistinct();
    var support, bitFlags := Detect(Names, outcomes);
    ofFull := IsSubsetOf(bitFlags, FullSet);
    ofLesser := IsSubsetOf(bitFlags, LesserSet);

    assert Bit(bitFlags, 4);
    OneFailureMask(bitFlags);
  }

  /** The isSupersetOf test: with every probe succeeding, the mask is a
      superset of LESSER_SET but not of (FULL_SET << 1) + 1. */
  method IsSupersetOfScenario() returns (ofLesser: bool, ofEvenFuller: bool)
    ensures ofLesser && !ofEvenFuller
  {
    var outcomes := seq(|Names|, _ => Truthy);
    NamesDistinct();
    var support, bitFlags := Detect(Names, outcomes);
    ofLesser := IsSupersetOf(bitFlags, LesserSet);
    ofEvenFuller := IsSupersetOf(bitFlags, EvenFullerSet);

    AllSupportedMask(bitFlags);
  }

  /** The "false if error" test: when every evaluation throws, each probe
      reads as unsupported, functionStatements included, and the mask is 0. */
  method FalseIfErrorScenario() returns (functionStatements: bool, bitFlags: nat)
    ensures !functionStatements && bitFlags == 0
  {
    var outcomes := seq(|Names|, _ => Throws);
    NamesDistinct();
    var support;
    support, bitFlags := Detect(Names, outcomes);
    functionStatements := support[Names[0]];

    NoneSupportedMask(bitFlags);
  }
}
