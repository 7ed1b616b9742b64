# function-name-support: the capability encoder

This project models the capability encoder of `function-name-support`. The
module probes the running JavaScript engine to learn which kinds of function
get an inferred `name` property. It runs one small snippet per capability in
a sandbox, in a fixed order:

1. `functionStatements`
2. `functionExpressions`
3. `newFunction`
4. `boundFunctions`
5. `functionVariables`
6. `functionObjectMethods`
7. `accessorProperties`
8. `shorthandMethods`
9. `symbolKeyedMethods`
10. `classStatements`
11. `classExpressions`
12. `classVariables`
13. `classObjectMethods`
14. `classPrototypeMethods`
15. `classStaticMethods`

From the snippet results it exports:

- a frozen `support` object, mapping each capability to a boolean;
- `bitFlags`, a mask where bit i is set when capability i is supported;
- `hasFullSupport`;
- the comparisons `isSubsetOf(mask)` and `isSupersetOf(mask)`.

The modules:

- `Bits`: powers of two, the bit-i predicate and bitwise AND, all on non-negative integers.
- `Catalog`: the 15 capability names in probe order. They are distinct.
- `Runner`: what the sandbox does with a snippet (`Truthy`, `Falsy`, `Throws`), and how that collapses to supported or unsupported.
- `Encoder`:
  - `Detect` is the detection pass. It is a loop that calls the runner once per name and folds each verdict into the support map and the mask.
  - `Detect` is proved against the functions `SupportOf` and `Encode`.
  - Lemmas prove the mask/vector round trips, the map/mask round trips and the meaning of `hasFullSupport`.
- `SetOps`:
  - `isSubsetOf` and `isSupersetOf` as JavaScript evaluates `(current & candidate) === …`. The operands are converted to 32-bit two's-complement words and the result is read back as signed.
  - Lemmas give both directions of their bit-containment meaning.
- `Expectations`:
  - the expected support vectors for Node.js v4.8.3, v6.4.0 and full support, and their masks;
  - the three scenarios that replace the sandbox with a fake runner. The stateful fake runner of the `isSubsetOf` test is a class with a `first` field.

## Model

| member | source | states |
|---|---|---|
| Runner.Supported | test.js:121-130 | Only a truthy outcome counts as supported. A falsy or throwing evaluation reads as unsupported. |
| Catalog.NamesDistinct | test.js:55-71 | The catalog has 15 names and no name occurs twice, so each capability has one key and one bit. |
| Encoder.Results | test.js:92-97 | The verdict vector has one entry per runner call. Entry i holds exactly when call i evaluated to a truthy value. |
| Encoder.FalsyLikeThrows | test.js:121-130 | Replacing a falsy outcome by a thrown error changes no verdict, and a thrown probe is recorded as false. |
| Encoder.Encode | test.js:30 | The mask of an n-entry vector lies below 2^n. |
| Encoder.EncodeBit | test.js:12-30 | Bit i of the mask is set exactly when entry i is supported. No bit at or past the catalog length is set. |
| Encoder.Decode | test.js:13-30 | Decoding the low n bits yields n entries, entry i being bit i of the mask. |
| Encoder.DecodeEncode | test.js:13-30 | Decoding the mask of a vector gives back the vector. |
| Encoder.EncodeDecode | test.js:13-30 | Encoding the decoded low bits of a mask below 2^n gives back the mask. |
| Encoder.EncodeSnoc | test.js:12-30 | Running one more probe adds 2^i to the mask when it succeeds and nothing otherwise. |
| Encoder.EncodeSetBit | test.js:33-51 | Turning one unsupported capability into a supported one raises the mask by exactly 2^i. |
| Encoder.EncodeAllTrue | test.js:55-73 | All entries hold exactly when the mask has all of its low bits set (2^n - 1). |
| Encoder.SupportOf | test.js:13-29 | After i probes, the map holds each probed name with its own verdict. |
| Encoder.SupportOfKeys | test.js:76-77 | The keys of the map are exactly the names probed so far. |
| Encoder.SupportOfSnoc | test.js:76-77 | One more probe adds its name with its verdict to the map built so far. |
| Encoder.Values | test.js:13-29 | Reading a covering map in name order lists each name's value at its position. |
| Encoder.MaskOfSupport | test.js:76-79 | The mask read back off the support map is the mask of the verdicts. Support and bitFlags agree. |
| Encoder.SupportFromMaskOfEncode | test.js:76-79 | The support map rebuilt from the mask is the detected support map. |
| Encoder.SupportFromMaskRoundTrip | test.js:76-79 | Every catalog-width mask is the mask of the map rebuilt from it. |
| Encoder.FullSupportIffAllSupported | test.js:31-73 | hasFullSupport holds exactly when every probe succeeded. |
| Encoder.FullSupportIffAllBits | test.js:72-73 | hasFullSupport holds exactly when the mask is 2^n - 1, i.e. FULL_SET for 15 probes. |
| Encoder.HasFullSupport | test.js:31-73 | `hasFullSupport`: true exactly when no capability in the map is false. `FullSupportIffAllSupported` gives its meaning in probe verdicts. |
| Encoder.ExtendPrefix | test.js:76-79 | One loop step extends both the support map and the mask with probe i. |
| Encoder.Detect | test.js:76-84 | The detection pass produces the map of the verdicts (one key per catalog name) and their mask. support[name_i] and bit i each hold exactly when call i was truthy. The mask is below 2^15. |
| Bits.And | test.js:102-118 | Bitwise AND of two non-negative integers, never above either operand. `Bits.AndBit` states it keeps exactly the bits set in both. |
| Bits.AndBit | test.js:102-118 | Bit i of `a AND b` is set exactly when bit i is set in both a and b. |
| SetOps.ToUint32 | test.js:102-103 | The 32-bit word of an operand is below 2^32 and leaves word-sized non-negative values unchanged. |
| SetOps.ToInt32 | test.js:102-103 | The signed reading of a word lies in [-2^31, 2^31) and converts back to the same word. |
| SetOps.BitAnd | test.js:102-118 | JavaScript's `a & b`: a signed 32-bit result, between 0 and a when a is a non-negative value below 2^31. |
| SetOps.IsSubsetOf | test.js:86-104 | `(current & candidate) === current`. When it holds, current is below 2^31 and not above the candidate's 32-bit word. `SubsetIffBitsContained` gives its bitwise meaning. |
| SetOps.IsSupersetOf | test.js:106-119 | `(current & candidate) === candidate`. When it holds, the candidate is below 2^31, and for a mask below 2^31 it lies between 0 and the mask. `SupersetIffBitsContained` gives its bitwise meaning. |
| SetOps.BitAndOfMask | test.js:102-103 | For a mask below 2^31, `current & candidate` is the plain AND with the candidate's 32-bit word. |
| SetOps.SubsetIffBitsContained | test.js:86-104 | isSubsetOf(candidate) holds exactly when every bit of the current mask is set in the candidate's 32-bit word. |
| SetOps.SupersetIffBitsContained | test.js:106-119 | isSupersetOf(candidate) holds exactly when the candidate is a non-negative 32-bit pattern all of whose bits are in the current mask. |
| SetOps.Reflexive | test.js:86-119 | The current mask is a subset and a superset of itself. |
| SetOps.SubsetAndSupersetIffEqual | test.js:86-119 | Subset and superset of the same candidate hold together exactly when it equals the current mask. |
| SetOps.SupersetDownwardClosed | test.js:106-119 | Dropping bits from a covered candidate keeps it covered. |
| SetOps.SubsetUpwardClosed | test.js:86-104 | Adding bits to a candidate that covers the current mask keeps it covering. |
| SetOps.ZeroMask | test.js:121-130 | The empty mask is a subset of every candidate and a superset only of 0. Every mask is a superset of 0. |
| SetOps.MaskBitTest | test.js:12-30 | Masking with 1 << i reads back exactly capability i's verdict. |
| SetOps.WithinFullMask | test.js:102-116 | Every mask of an n-probe catalog is a subset of 2^n - 1, and 2^n - 1 is a superset of it. |
| SetOps.NoSupersetBeyondCatalog | test.js:117-118 | For n < 32, no mask of an n-probe catalog is a superset of a non-negative candidate with any bit at position n or above. |
| Expectations.EncodeV4 | test.js:12-30 | The v4.8.3 support vector encodes to 26251. |
| Expectations.V6ExtendsV4 | test.js:12-51 | The v6.4.0 vector is the v4.8.3 vector with newFunction turned on. |
| Expectations.EncodeV6 | test.js:33-51 | The v6.4.0 vector differs from v4.8.3 only in newFunction, and encodes to 26251 + 4 = LESSER_SET. |
| Expectations.EncodeAll | test.js:55-72 | The all-supported vector encodes to FULL_SET. |
| Expectations.NotFullV4 | test.js:31 | hasFullSupport is false for the v4.8.3 support map. |
| Expectations.NotFullV6 | test.js:52 | hasFullSupport is false for the v6.4.0 support map. |
| Expectations.FullWhenAllSupported | test.js:73 | hasFullSupport is true for the all-supported map. |
| Expectations.EvenFullerSetBits | test.js:117 | (FULL_SET << 1) + 1 is 2^16 - 1 and has bit 15 set. |
| Expectations.LesserSetLacksFunctionVariables | test.js:33-51 | LESSER_SET does not have bit 4 (functionVariables). |
| Expectations.OneFailureMask | test.js:102-103 | A catalog mask with bit 4 set is a subset of FULL_SET and not of LESSER_SET. |
| Expectations.AllSupportedMask | test.js:116-118 | A catalog mask with every bit set is FULL_SET. It is a superset of LESSER_SET and not of (FULL_SET << 1) + 1. |
| Expectations.NoneSupportedMask | test.js:121-130 | A catalog mask with no bit set is 0. |
| Expectations.FirstCallFalsy.Run | test.js:88-99 | The fake runner's first call is falsy and every later call truthy. After any call the flag is cleared. |
| Expectations.IsSubsetOfScenario | test.js:86-104 | With only the first probe failing, the detected mask is a subset of FULL_SET and not of LESSER_SET. |
| Expectations.IsSupersetOfScenario | test.js:106-119 | With every probe succeeding, the detected mask is a superset of LESSER_SET and not of (FULL_SET << 1) + 1. |
| Expectations.FalseIfErrorScenario | test.js:121-130 | When every probe throws, detection still completes. functionStatements is false and the mask is 0. |

## Left out

- The `vm` sandbox and the JavaScript probe snippets (test.js:1, 91, 110, 124). The sandbox runs engine code that is not part of this model. Each snippet's evaluation becomes an `Outcome`. `Detect` takes one outcome per runner call, in call order. The `IsSubsetOfScenario` loop collects the fake runner's answers before the fold.
- Whether a given engine infers function names. That is engine behaviour. The three expectation vectors are fixed constants.
- Picking the expectation table by `process.version` (test.js:54). This reads the environment. Each table is modelled separately.
- The ava harness, `proxyquire` stubbing and the istanbul instrumentation regression test (test.js:2-4, 132-149). These are test tooling around foreign libraries.
- The module's implementation file is not part of this model. Its behaviour comes from test.js's tables and assertions: catalog order, one bit per name, throw-to-false, and the direction of the two comparisons.
- `Detect` is stated over any list of distinct names. The scenarios instantiate it with `Catalog.Names`.
- Encoder.Detect: builds the mask by adding 2^i with unbounded integers. A 32-bit `flags | (1 << i)` gives the same result only for bit positions up to 30, i.e. lists of at most 31 names. The 15-name catalog is well inside that bound.
- The support object's key order is not modelled. In JavaScript, insertion order is catalog order; a Dafny map has no order. `Encoder.Values` and `Encoder.MaskOf` read the map in name-list order instead.
- Expected support objects are compared as vectors in catalog order, not as literal maps. `Encoder.SupportOf` turns a vector into the map.
- Freezing the support object (test.js:82-84) has no separate model. Dafny maps are immutable values, so nothing can change `support` after `Detect` returns.
- `SetOps.IsSubsetOf`/`IsSupersetOf` take integral candidates only. JavaScript's ToInt32 of a fractional, NaN or infinite number is not modelled.
