// The capability encoder: the detection pass over the catalog, the support
// map it builds, and the bit-packed mask (bitFlags) derived from it.

module Encoder {
  import opened Bits
  import opened Catalog
  import opened Runner

  /** The mask of a support vector: bit i is set iff v[i] holds. */
  function Encode(v: seq<bool>): (r: nat)
    ensures r < Pow2(|v|)
  {
    if |v| == 0 then 0 else (if v[0] then 1 else 0) + 2 * Encode(v[1..])
  }

  /** The low n bits of a mask, as a support vector. */
  function Decode(m: nat, n: nat): (r: seq<bool>)
    ensures |r| == n
    ensures forall i | 0 <= i < n :: r[i] == Bit(m, i)
  {
    if n == 0 then [] else [m % 2 == 1] + Decode(m / 2, n - 1)
  }

  /** Bit i of the mask is set exactly when entry i of the vector holds;
      bits past the vector are never set. */
  lemma {:induction false} EncodeBit(v: seq<bool>, i: nat)
    ensures Bit(Encode(v), i) <==> i < |v| && v[i]
  {
    if i >= |v| {
      BitBeyond(Encode(v), |v|, i);
    } else if i > 0 {
      EncodeBit(v[1..], i - 1);
    }
  }

  lemma DecodeEncode(v: seq<bool>)
    ensures Decode(Encode(v), |v|) == v
  {
    forall i | 0 <= i < |v|
      ensures Decode(Encode(v), |v|)[i] == v[i]
    {
      EncodeBit(v, i);
    }
  }

  lemma EncodeDecode(m: nat, n: nat)
    requires m < Pow2(n)
    ensures Encode(Decode(m, n)) == m
  {
    var v := Decode(m, n);
    forall i | 0 <= i < n
      ensures Bit(Encode(v), i) == Bit(m, i)
    {
      EncodeBit(v, i);
    }
    BitsEqual(Encode(v), m, n);
  }

  /** Appending one more probe result adds its bit at the next position. */
  lemma {:induction false} EncodeSnoc(v: seq<bool>, b: bool)
    ensures Encode(v + [b]) == Encode(v) + (if b then Pow2(|v|) else 0)
  {
    if v != [] {
      assert (v + [b])[1..] == v[1..] + [b];
      EncodeSnoc(v[1..], b);
    }
  }

  /** Turning one unsupported entry into a supported one adds exactly 2^i. */
  lemma {:induction false} EncodeSetBit(v: seq<bool>, i: nat)
    requires i < |v| && !v[i]
    ensures Encode(v[i := true]) == Encode(v) + Pow2(i)
  {
    if i > 0 {
      assert v[i := true][1..] == v[1..][i - 1 := true];
      EncodeSetBit(v[1..], i - 1);
    }
  }

  /** Every entry holds exactly when the mask has all its |v| bits set. */
  lemma {:induction false} EncodeAllTrue(v: seq<bool>)
    ensures (forall i | 0 <= i < |v| :: v[i]) <==> Encode(v) == Pow2(|v|) - 1
  {
    if v != [] {
      EncodeAllTrue(v[1..]);
      if forall i | 0 <= i < |v| :: v[i] {
        assert forall i | 0 <= i < |v| - 1 :: v[1..][i] == v[i + 1];
      } else if Encode(v) == Pow2(|v|) - 1 {
        assert v[0];
        forall i | 0 <= i < |v|
          ensures v[i]
        {
          if i > 0 { assert v[1..][i - 1] == v[i]; }
        }
      }
    }
  }

  /** The runner's verdict on each probe, in catalog order. */
  function Results(outcomes: seq<Outcome>): (r: seq<bool>)
    ensures |r| == |outcomes|
    ensures forall i | 0 <= i < |outcomes| :: r[i] <==> outcomes[i] == Truthy
  {
    seq(|outcomes|, i requires 0 <= i < |outcomes| => Supported(outcomes[i]))
  }

  /** A probe that evaluates to a falsy value reads exactly like one that
      throws: both leave the capability unsupported. */
  lemma FalsyLikeThrows(outcomes: seq<Outcome>, i: nat)
    requires i < |outcomes|
    ensures Results(outcomes[i := Falsy]) == Results(outcomes[i := Throws])
    ensures !Results(outcomes[i := Throws])[i]
  {
    var a, b := Results(outcomes[i := Falsy]), Results(outcomes[i := Throws]);
    assert forall j | 0 <= j < |a| :: a[j] == b[j];
  }

  /** The support map built from the first |v| probe results: one key per
      name, inserted in list order. */
  function SupportOf(names: seq<string>, v: seq<bool>): (r: map<string, bool>)
    requires Distinct(names) && |v| <= |names|
    ensures forall i | 0 <= i < |v| :: names[i] in r && r[names[i]] == v[i]
    decreases |v|
  {
    if |v| == 0 then map[]
    else SupportOf(names, v[..|v| - 1])[names[|v| - 1] := v[|v| - 1]]
  }

  /** The support map has exactly one key per probe run so far. */
  lemma {:induction false} SupportOfKeys(names: seq<string>, v: seq<bool>)
    requires Distinct(names) && |v| <= |names|
    ensures SupportOf(names, v).Keys == set i | 0 <= i < |v| :: names[i]
    decreases |v|
  {
    if |v| > 0 {
      SupportOfKeys(names, v[..|v| - 1]);
    }
  }

  lemma SupportOfSnoc(names: seq<string>, v: seq<bool>, b: bool)
    requires Distinct(names) && |v| < |names|
    ensures SupportOf(names, v + [b]) == SupportOf(names, v)[names[|v|] := b]
  {
    assert (v + [b])[..|v|] == v;
  }

  /** True when the map holds a value for every name. */
  predicate Covers(names: seq<string>, support: map<string, bool>)
  {
    forall i | 0 <= i < |names| :: names[i] in support
  }

  /** The map's values listed in name order. */
  function Values(names: seq<string>, support: map<string, bool>): (r: seq<bool>)
    requires Covers(names, support)
    ensures |r| == |names|
    ensures forall i | 0 <= i < |names| :: r[i] == support[names[i]]
  {
    seq(|names|, i requires 0 <= i < |names| => support[names[i]])
  }

  /** The mask read back off a support map, one bit per name in list order. */
  function MaskOf(names: seq<string>, support: map<string, bool>): nat
    requires Covers(names, support)
  {
    Encode(Values(names, support))
  }

  /** The support map read back off a mask. */
  function SupportFromMask(names: seq<string>, mask: nat): map<string, bool>
    requires Distinct(names)
  {
    SupportOf(names, Decode(mask, |names|))
  }

  /** The mask is recovered from the support map built from it. */
  lemma MaskOfSupport(names: seq<string>, v: seq<bool>)
    requires Distinct(names) && |v| == |names|
    ensures Covers(names, SupportOf(names, v))
    ensures MaskOf(names, SupportOf(names, v)) == Encode(v)
  {
    assert Values(names, SupportOf(names, v)) == v;
  }

  /** The support map is recovered from the mask built from it. */
  lemma SupportFromMaskOfEncode(names: seq<string>, v: seq<bool>)
    requires Distinct(names) && |v| == |names|
    ensures SupportFromMask(names, Encode(v)) == SupportOf(names, v)
  {
    DecodeEncode(v);
  }

  lemma SupportFromMaskRoundTrip(names: seq<string>, mask: nat)
    requires Distinct(names) && mask < Pow2(|names|)
    ensures Covers(names, SupportFromMask(names, mask))
    ensures MaskOf(names, SupportFromMask(names, mask)) == mask
  {
    MaskOfSupport(names, Decode(mask, |names|));
    EncodeDecode(mask, |names|);
  }

  /** True when every capability in the map is supported. */
  predicate HasFullSupport(support: map<string, bool>): (r: bool)
    ensures r <==> false !in support.Values
  {
    forall name | name in support :: support[name]
  }

  /** Full support holds exactly when every probe succeeded. */
  lemma FullSupportIffAllSupported(names: seq<string>, v: seq<bool>)
    requires Distinct(names) && |v| <= |names|
    ensures HasFullSupport(SupportOf(names, v)) <==> forall i | 0 <= i < |v| :: v[i]
  {
    var s := SupportOf(names, v);
    SupportOfKeys(names, v);
    if forall i | 0 <= i < |v| :: v[i] {
      forall k | k in s
        ensures s[k]
      {
        var i :| 0 <= i < |v| && names[i] == k;
      }
    }
  }

  /** Full support holds exactly when every one of the mask's |names| bits is set. */
  lemma FullSupportIffAllBits(names: seq<string>, v: seq<bool>)
    requires Distinct(names) && |v| == |names|
    ensures HasFullSupport(SupportOf(names, v)) <==> Encode(v) == Pow2(|names|) - 1
  {
    EncodeAllTrue(v);
    FullSupportIffAllSupported(names, v);
  }

  /** One more probe result extends both the support map and the mask. */
  lemma ExtendPrefix(names: seq<string>, v: seq<bool>, i: nat)
    requires Distinct(names) && |v| == |names| && i < |v|
    ensures SupportOf(names, v[..i + 1]) == SupportOf(names, v[..i])[names[i] := v[i]]
    ensures Encode(v[..i + 1]) == Encode(v[..i]) + (if v[i] then Pow2(i) else 0)
  {
    assert v[..i + 1] == v[..i] + [v[i]];
    EncodeSnoc(v[..i], v[i]);
    SupportOfSnoc(names, v[..i], v[i]);
  }

  /** The detection pass: run every probe once, in list order, and fold each
      verdict into the support map under its name and into the mask at its
      bit position. outcomes[i] is what the runner does on its i-th call;
      the module runs this over Catalog.Names. */
  method Detect(names: seq<string>, outcomes: seq<Outcome>)
    returns (support: map<string, bool>, bitFlags: nat)
    requires Distinct(names) && |outcomes| == |names|
    ensures support == SupportOf(names, Results(outcomes))
    ensures bitFlags == Encode(Results(outcomes))
    ensures support.Keys == set i | 0 <= i < |names| :: names[i]

    ensures forall i | 0 <= i < |names| :: support[names[i]] <==> outcomes[i] == Truthy
    ensures forall i | 0 <= i < |names| :: Bit(bitFlags, i) <==> outcomes[i] == Truthy
    ensures bitFlags < Pow2(|names|)
  {
    ghost var verdicts := Results(outcomes);
    support, bitFlags := map[], 0;
    var bit := 1;
    for i := 0 to |names|
      invariant bit == Pow2(i)
      invariant support == SupportOf(names, verdicts[..i])
      invariant bitFlags == Encode(verdicts[..i])
    {
      var supported := Supported(outcomes[i]);
      ExtendPrefix(names, verdicts, i);
      support := support[names[i] := supported];
      if supported {
        bitFlags := bitFlags + bit;
      }
      bit := 2 * bit;
    }
    assert verdicts[..|names|] == verdicts;
    SupportOfKeys(names, verdicts);
    forall i | 0 <= i < |names|
      ensures Bit(bitFlags, i) <==> outcomes[i] == Truthy
    {
      EncodeBit(verdicts, i);
    }
  }
}
