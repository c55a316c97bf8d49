# Verification of the Ed25519 and ECDSA arithmetic

A Dafny model of the cryptographic core of this repository, with proofs. Two cores are covered: the Ed25519
implementation in `src/ed25519-donna` (64-bit limbs, C) and the ECDSA toolkit in `bin/python/ecdsa` (Python).
`dafny verify dfyconfig.toml` checks the project.

The main results:

* `Ed25519.SignThenOpen`: every signature made with its own key is accepted, from bytes through SHA-512 buffering,
  Barrett reduction, digit recoding, table lookup, limb arithmetic, point formulas, inversion and square root, and back
  to bytes. `Ed25519.SignOpen` states acceptance as an if-and-only-if for all keys and signatures.
* `Batch.SignOpenBatch` and `BatchValid.GoodBatch`: the batch driver from bytes to `valid[]`, through decoding, scalar
  preparation, the heap-driven multi-scalar multiplication over limbs and the neutrality test.
* `BosCoster.MultiScalarmult` and `BosCosterExact.NotExact`: what the multi-scalar multiplication conserves, and the exact
  scalars for which its result is the sum over all entries.
* `Modm.BarrettReduce256`, `Field.Multiply`, `Field.Contract`: exact results and the absence of overflow for limb
  arithmetic modulo the group order and modulo p = 2^255 - 19.
* `Ladder.DoubleScalarmult`, `BaseLadder.ScalarmultBase`: both scalar multiplications, over limbs.
* `EdwardsClosure.AddsOnCurve`, `EdwardsComplete.Complete`: the addition law stays on the curve, and its denominators
  never vanish there.
* `Sha512.HashChunks`: streaming equals one-shot hashing for every way of cutting the message.
* `Weierstrass.Add`, `Ecdsa.SignThenVerify`: the chord-and-tangent formulas stay on the curve, and a signature is made and
  verifies under exact conditions on the inputs.
* `Der.SignatureRoundTrip`: the exact numbers that the DER codec gives back. `DerFormat` says byte by byte what it writes and
  which strings it refuses.
* `ReferenceSign.SamePublicKey`, `ReferenceSign.SameSignature`, `ReferenceVerify.SameVerdict`: the limb code in C and the
  reference implementation in `bin/python/ed25519.py`, which sums bits and adds affine points, compute the same bytes and the
  same verdicts.

## How to read the model

Numbers. A machine word is an `int`. A local variable of type `U64` or `U128` holds what the source keeps in 64 or 128
bits, so each assignment to it carries the obligation that nothing overflows; where the source wraps, the model says
`% W64`. Masks are `%`, shifts are `/` and `*`, and `|` of numbers without common bits is `+`. `BitTricks` proves the
branch-free forms that the model writes as conditionals. A limb number (`bignum256modm`, `bignum25519`) is a datatype
value and an out-parameter is a result; digit arrays, the batch heap, the hash state, the scalar array of a batch and
`valid[]` are arrays and classes that methods change in place.

Folded predicates. `Field.Eqm`, `Edwards.Is`, `FieldPow.PowEq`, `Modm.Means` and a few others are quantified over a named
witness predicate instead of being plain equations. They mean congruence modulo p, "these limbs hold this number", "this is
that power" and "these limbs are the reduced form of this number"; the lemmas next to them (`EqmBy`, `IsEqm`, `PowElim`,
`MeansIff`) turn them into equations and back. `Edwards.D()` and `Edwards.K(u, v)` are the constant d and the product
d x1 x2 y1 y2, behind the guard `Field.Opened`; `DValue` and `KValue` give their values.

Ghost parameters. A method that takes `ghost u: Aff` or `ghost g: Group<T>` states its result for all such values: a point
formula takes limbs that represent u and v, and returns limbs that represent every w that the addition law allows.

Hypotheses. They are predicates, so every theorem shows which ones it uses.

* `Primes.Prime(P)`: 2^255 - 19 is prime. Fermat's theorem, the absence of zero divisors and the correctness of the
  square root are proved from it.
* `Ladder.Points(g, at)`: g is an abelian group whose elements have Edwards coordinates that the addition law adds.
  Commutativity, the neutral element, inverses, closure and completeness of the law are proved; associativity is the part
  that is assumed. `Ladder.TwoPointsMeetLaws` shows that the hypothesis can be met.
* `Ed25519.Curve`: in addition, the group contains every curve point, coordinates determine elements, the base point has
  order m, and the two precomputed tables hold what they should.
* `EdwardsComplete.NonSquare(D())`: d is not a square modulo p.
* `ReferenceSign.Shared`: these, and the base point of the C tables is the one that the Python code computes.
* `Primes.Prime(Modm.M)` and `Ed25519.OrderedKey`: the group order m is prime, and a key has order m. Only the results
  that say so use them: `ed25519_sign_open` also accepts keys with a small-order part, for which
  `BatchEquation.BatchSumIsLost` says what the batch sum is and `BatchEquation.LosslessKey` when it is always neutral.
* `WeierstrassGroup.Chords(c, g, at)`: p is prime and g is an abelian group of points of the curve that chords and tangents
  add. That sums lie on the curve is proved; associativity is assumed. `EcdsaInstance.SevenPointsMeetLaws` shows that the
  hypothesis can be met.
* `Ed25519.EightWords`: the compression function returns eight words. It is otherwise arbitrary.

## Where code and comments differ

* `curve25519_square_times` is commented as in^(2 * count); it computes in^(2^count).
* `ge25519_multi_scalarmult_vartime_final` starts from the point and then processes the leading bit as well, so from 2
  on it computes a larger multiple than its name says, and it looks at four of the five limbs. `BosCoster.FinalExact`
  gives the exact set of scalars for which the multiplier is s.
* The main loop of the multi-scalar multiplication can end before the heap was extended to all entries.
  `BosCoster.Extends` is the exact condition on the scalars, `BosCosterExact.EarlyExit` an instance.
* The comment that the last scalar is 0 only if all scalars are is right for the scalars in the heap, not for all entries.
* The heap update needs an odd size from 3 on; the callers always pass one.
* The rows of the base table for position 0 hold 2xy instead of 2dxy; the code multiplies by d where it needs to.
* `Private_key.sign` does not reduce r modulo n, so a signature with r >= n is rejected by `verifies`
  (`EcdsaInstance.UnreducedSignature`).
* `Point.double` fails on a point of order 2 instead of returning infinity.
* The assertion `self * order == INFINITY` in `Point.__init__` always holds, because `__mul__` reduces by the order first.
* `encode_integer` writes its length in one byte, `read_length` reads a byte from 0x80 on as a long form.
* `checkvalid` in Python multiplies the key by the unreduced hash, takes any S and decodes R; `ed25519_sign_open` reduces the
  hash modulo m, wants the top bits of S clear and compares R as bytes. `ReferenceVerify.SameVerdict` is the exact relation
  for keys of order m.
* `remove_integer` accepts a content that is shorter than its length says (`DerFormat.RemoveIntegerIs`).
* The length test in `read_number` cannot fire; a truncated number ends in an index error.

## Model

| member | source | states |
|---|---|---|
| Modm.Reduce256 | src/ed25519-donna/modm-donna-64bit.h:42-63 | one conditional subtraction: the value loses m exactly when it is at least m |
| Modm.QuotientError | src/ed25519-donna/modm-donna-64bit.h:65-107 | the estimated quotient is at most 2 short of x / m and never too large, with the low rows of mu * q1 dropped |
| Modm.Quotient | src/ed25519-donna/modm-donna-64bit.h:71-85 | the column sums from row 3 on give a q3 within the error bound, and no 64- or 128-bit step overflows |
| Modm.BarrettReduce256 | src/ed25519-donna/modm-donna-64bit.h:65-107 | from x >> 248 and x mod 2^264 the result is exactly x mod m in canonical limbs, so two conditional subtractions are enough |
| Modm.Add256 | src/ed25519-donna/modm-donna-64bit.h:110-121 | (x + y) mod m for reduced operands |
| Modm.Mul256 | src/ed25519-donna/modm-donna-64bit.h:123-150 | (x * y) mod m for all operands below 2^256 |
| Modm.Expand256 | src/ed25519-donna/modm-donna-64bit.h:152-187 | for every string of up to 64 bytes, the little-endian number mod m, canonical |
| Modm.Contract256 | src/ed25519-donna/modm-donna-64bit.h:205-211 | the 32 bytes denote the same number, so it inverts expansion on reduced numbers |
| Modm.LimbsUnique | src/ed25519-donna/modm-donna-64bit.h:15-35 | canonical limbs are determined by the value |
| BatchModm.TruncatedCompare | src/ed25519-donna/modm-donna-64bit.h:302-330 | comparison of the low limbs only agrees with comparison of the numbers when the limbs above are zero |
| BatchModm.TruncatedSub | src/ed25519-donna/modm-donna-64bit.h:286-299 | subtraction of the low limbs only gives a - b, and it fits the same window |
| BatchModm.SubIsFullDiff | src/ed25519-donna/modm-donna-64bit.h:286-299 | truncated and full-width subtraction write the same limbs |
| BatchModm.LimbTests | src/ed25519-donna/modm-donna-64bit.h:332-361 | the limb tests decide value = 0, value = 1 and value < 2^128 |
| Recode.SlidingWindow | src/ed25519-donna/modm-donna-64bit.h:240-280 | for every s < 2^255 and 2 <= w <= 7 the 256 digits sum to s and form the width-w NAF: nonzero digits odd, below 2^(w-1), the next w - 1 digits zero |
| Recode.NafSparse | src/ed25519-donna/modm-donna-64bit.h:240-280 | any w consecutive positions hold at most one nonzero digit |
| Recode.Carry | src/ed25519-donna/modm-donna-64bit.h:266-274 | carry propagation finds a zero below the bound and keeps the denoted number |
| Recode.Window4 | src/ed25519-donna/modm-donna-64bit.h:213-238 | signed radix-16 digits in [-8, 7], the last one in [0, 8], that sum to s for every s < 2^255 |
| HeapOrder.RiseStep | src/ed25519-donna/ed25519-donna-batchverify.h:41-46 | one sift-up swap moves the only violation to the parent |
| HeapOrder.SinkStep | src/ed25519-donna/ed25519-donna-batchverify.h:62-68 | one sift-down swap with the larger child moves the hole to that child |
| HeapOrder.RootIsMax | src/ed25519-donna/ed25519-donna-batchverify.h:95-103 | the root of an ordered heap is a maximum |
| HeapOrder.ChildIsSecond | src/ed25519-donna/ed25519-donna-batchverify.h:95-103 | the larger child of the root is a maximum of the rest |
| BatchHeap.SiftUp | src/ed25519-donna/ed25519-donna-batchverify.h:70-76 | sifting up restores order and keeps a permutation |
| BatchHeap.SinkRoot | src/ed25519-donna/ed25519-donna-batchverify.h:57-68 | the root moves to the bottom along the larger children, permutation kept |
| BatchHeap.Heap.constructor | src/ed25519-donna/ed25519-donna-batchverify.h:13-19 | the struct holds the given scalars and points |
| BatchHeap.Heap.InsertNext | src/ed25519-donna/ed25519-donna-batchverify.h:30-48 | the heap grows by one, permutation and order kept |
| BatchHeap.Heap.Build | src/ed25519-donna/ed25519-donna-batchverify.h:79-86 | a heap of the first count scalars |
| BatchHeap.Heap.Extend | src/ed25519-donna/ed25519-donna-batchverify.h:88-93 | the heap grows to the new count, order kept |
| BatchHeap.Heap.GetTop2 | src/ed25519-donna/ed25519-donna-batchverify.h:95-103 | the two largest scalars, at different indices |
| BatchHeap.Heap.UpdatedRoot | src/ed25519-donna/ed25519-donna-batchverify.h:50-77 | after only the root decreased, order is restored for every odd size from 3 on |
| MultiSum.StepConservesSum | src/ed25519-donna/ed25519-donna-batchverify.h:182-183 | [a]p + [b]q = [a - b]p + [b](q + p): a step conserves the sum of multiples |
| MultiSum.StepConservesDivisors | src/ed25519-donna/ed25519-donna-batchverify.h:182 | a step conserves the common divisors of the scalars |
| MultiSum.StepKeepsExponents | src/ed25519-donna/ed25519-donna-batchverify.h:183 | a number that multiplies all points to the neutral element still does so after a step |
| MultiSum.Survivor | src/ed25519-donna/ed25519-donna-batchverify.h:164-187 | when one scalar is left it is the gcd of the original scalars, and its multiple is the original sum |
| MultiSum.GcdIsEuclid | src/ed25519-donna/ed25519-donna-batchverify.h:164-187 | the gcd that the loop ends with is what Euclid's algorithm computes from the original scalars |
| MultiSum.TotalUpdate | src/ed25519-donna/ed25519-donna-batchverify.h:164-185 | the total of all scalars changes by the change of one, which is the termination measure |
| BosCoster.FinalExact | src/ed25519-donna/ed25519-donna-batchverify.h:105-148 | the multiplier of the final step is s itself exactly for s = 0, 1 and for the numbers whose two leading ones are bits 224 and 223 |
| BosCoster.Final | src/ed25519-donna/ed25519-donna-batchverify.h:105-148 | over limbs: [s]P for s = 0, 1; for larger s with low = s mod 2^224 and 2^t the leading bit of low, the multiple is low + 2^(t+1); for a positive multiple of 2^224 the limb index runs below zero |
| BosCoster.MultiplierIs | src/ed25519-donna/ed25519-donna-batchverify.h:124-147 | the multiplier of the final step in closed form, used by the results on exactness |
| BosCoster.WindowShrinks | src/ed25519-donna/ed25519-donna-batchverify.h:171-173 | a zero limb at the maximum lets the window shrink by one and never below zero |
| BosCoster.StaysWide | src/ed25519-donna/ed25519-donna-batchverify.h:175-183 | the larger of the two scalars involved keeps half of the old maximum, so the window still covers 128 bits at extension |
| BosCoster.Reduce | src/ed25519-donna/ed25519-donna-batchverify.h:182-184 | subtraction, limb addition and sift in the window: the new keys, the elements the points stand for, heap restored |
| BosCoster.Iterate | src/ed25519-donna/ed25519-donna-batchverify.h:171-184 | one pass keeps heap, window and extension state and is one conserving step on the top two; it extends only below 2^128 |
| BosCoster.Loop | src/ed25519-donna/ed25519-donna-batchverify.h:164-185 | the loop ends with at most one nonzero scalar, sum, gcd and exponents conserved; it extends only if every common divisor is below 2^128, and otherwise ends with a scalar of more than 128 bits |
| BosCoster.MultiScalarmult | src/ed25519-donna/ed25519-donna-batchverify.h:150-188 | the entries used are all of them if and only if two of the first scalars are positive and their gcd is below 2^128, otherwise the first half; what remains is an element whose multiple by the gcd is the sum of the used entries, and for exact scalars the result is the sum over all entries |
| BosCosterExact.NotExact | src/ed25519-donna/ed25519-donna-batchverify.h:150-188 | exactness is necessary: for all other reduced scalars there are points of prime order m whose sum the result misses |
| BosCosterExact.EarlyExit | src/ed25519-donna/ed25519-donna-batchverify.h:164-169 | nine entries, as for a block of four, with scalars 1, 0, 0, 0, 0, 1, 1, 1, 1: the loop ends at once and four entries are lost |
| Field.Add | src/ed25519-donna/curve25519-donna-64bit.h:25-33 | a + b mod p with limbs below 2^53 - 76 |
| Field.AddAfterBasic | src/ed25519-donna/curve25519-donna-64bit.h:35-43 | a + b mod p with limbs below 2^54 |
| Field.AddReduce | src/ed25519-donna/curve25519-donna-64bit.h:45-54 | a + b mod p with limbs below 2^51 + 2^18 |
| Field.Sub | src/ed25519-donna/curve25519-donna-64bit.h:62-70 | a - b mod p, and no limb goes below zero |
| Field.SubAfterBasic | src/ed25519-donna/curve25519-donna-64bit.h:72-80 | a - b mod p after one basic operation, and no limb goes below zero |
| Field.SubReduce | src/ed25519-donna/curve25519-donna-64bit.h:82-91 | a - b mod p with limbs below 2^51 + 2^18 |
| Field.Neg | src/ed25519-donna/curve25519-donna-64bit.h:93-103 | -a mod p |
| Field.FoldedProduct | src/ed25519-donna/curve25519-donna-64bit.h:123-156 | the ten folded columns are congruent to the product, because 2^255 = p + 19 |
| Field.Multiply | src/ed25519-donna/curve25519-donna-64bit.h:105-171 | for limbs below 2^54: no overflow, the product mod p, limbs below 2^51 + 2^18 |
| Field.Square | src/ed25519-donna/curve25519-donna-64bit.h:236-284 | for limbs below 2^54: no overflow, the square mod p, limbs below 2^51 + 2^18 |
| Field.CarryParallel | src/ed25519-donna/curve25519-donna-64bit.h:215-226 | the shorter carry chain of repeated squaring reaches the same bounds, and shl128 by 13 loses nothing |
| Field.Expand | src/ed25519-donna/curve25519-donna-64bit.h:286-319 | the little-endian number mod 2^255 in five 51-bit limbs |
| Field.Contract | src/ed25519-donna/curve25519-donna-64bit.h:321-373 | for limbs below 2^54, the 32 bytes of the representative in [0, p) |
| Field.EncodingsAgree | src/ed25519-donna/curve25519-donna-64bit.h:321-373 | two encodings are byte-equal if and only if the numbers are congruent |
| Field.ExpandContract | src/ed25519-donna/curve25519-donna-64bit.h:286-373 | contract after expand gives back b if and only if b is canonical |
| FieldPow.SquareTimes | src/ed25519-donna/curve25519-donna-64bit.h:178-234 | the exponent is 2^count for every count; a count of 0 runs 2^64 rounds |
| FieldPow.PowTwo250 | src/ed25519-donna/curve25519-donna-helpers.h:12-31 | from z^(2^5 - 1) to z^(2^250 - 1) |
| FieldPow.Recip | src/ed25519-donna/curve25519-donna-helpers.h:36-49 | z^(2^255 - 21) for every z |
| FieldPow.PowTwo252m3 | src/ed25519-donna/curve25519-donna-helpers.h:54-67 | z^(2^252 - 3) for every z |
| FieldPrime.RecipInverts | src/ed25519-donna/curve25519-donna-helpers.h:33-49 | the power that recip computes is the inverse of every invertible z |
| Edwards.Constants | src/ed25519-donna/ed25519-donna-64bit-tables.h:8-14 | the limb constants are d and 2d, and 121666 d = -121665 |
| Edwards.AddsUnique | bin/python/ed25519.py:33-40 | the law determines the sum |
| Edwards.AddsCommutes | bin/python/ed25519.py:33-40 | the law is commutative |
| Edwards.AddsNeutral | bin/python/ed25519.py:33-43 | (0, 1) is neutral |
| Edwards.AddsInverse | bin/python/ed25519.py:33-40 | on the curve, negating x gives the inverse |
| EdwardsClosure.AddsOnCurve | bin/python/ed25519.py:33-40 | the sum of two curve points satisfies the curve equation |
| EdwardsComplete.Complete | bin/python/ed25519.py:33-40 | if p is prime and d is no square, both denominators are invertible for every two curve points |
| EdwardsComplete.SumExists | bin/python/ed25519.py:33-40 | every two curve points have a sum, which is a curve point |
| Edwards.FullProduct | src/ed25519-donna/ed25519-donna-impl-base.h:12-18 | full coordinates satisfy t z = x y |
| Edwards.ToPartial | src/ed25519-donna/ed25519-donna-impl-base.h:5-10 | the partial conversion keeps the point; t is left unspecified |
| Edwards.ToFull | src/ed25519-donna/ed25519-donna-impl-base.h:12-18 | the full conversion keeps the point and establishes t z = x y |
| Edwards.ToPniels | src/ed25519-donna/ed25519-donna-impl-base.h:20-26 | the cached form represents the same point |
| Edwards.AddP1p1 | src/ed25519-donna/ed25519-donna-impl-base.h:32-50 | the result represents the affine sum, with all limb bounds met and no underflow |
| Edwards.DoubleP1p1 | src/ed25519-donna/ed25519-donna-impl-base.h:53-67 | for a curve point the result represents its double, and t is not read |
| Edwards.NielsAddP1p1 | src/ed25519-donna/ed25519-donna-impl-base.h:69-86 | sum or, for sign bit 1, difference with a niels point |
| Edwards.PnielsAddP1p1 | src/ed25519-donna/ed25519-donna-impl-base.h:88-106 | sum or, for sign bit 1, difference with a pniels point |
| Edwards.DoublePartial | src/ed25519-donna/ed25519-donna-impl-base.h:108-113 | the double, without t |
| Edwards.Double | src/ed25519-donna/ed25519-donna-impl-base.h:115-120 | the double, with t |
| Edwards.AddPoints | src/ed25519-donna/ed25519-donna-impl-base.h:122-127 | the sum in full coordinates |
| Edwards.NielsAdd | src/ed25519-donna/ed25519-donna-impl-base.h:129-147 | in-place sum with a niels point, in full coordinates |
| Edwards.PnielsAdd | src/ed25519-donna/ed25519-donna-impl-base.h:149-172 | the sum in cached form |
| Ladder.TwoPointsMeetLaws | bin/python/ed25519.py:33-40 | the hypotheses on the group of points can be met |
| Reference.ExpModIsPower | bin/python/ed25519.py:10-14 | square-and-multiply gives the power modulo p for every base and exponent |
| Reference.InvInverts | bin/python/ed25519.py:16-17 | for prime p, the inverse of every invertible number |
| Reference.PyDIs | bin/python/ed25519.py:19 | the computed constant d is the one that the C code has in limbs |
| Reference.PyIRoot | bin/python/ed25519.py:20 | the computed constant I squares to -1 |
| Reference.XRecovers | bin/python/ed25519.py:22-27 | wherever the curve has a point over y, the even x of one |
| Reference.PyAdds | bin/python/ed25519.py:33-40 | for every two curve points the formulas give the sum that the law describes, on the curve again |
| Reference.PyMulIsMul | bin/python/ed25519.py:42-47 | the recursive double-and-add is the multiple that the ladders are proved against |
| ReferenceSign.Moduli | bin/python/ed25519.py:4-5 | q and l are the moduli of the C code |
| ReferenceSign.BaseIs | bin/python/ed25519.py:29-31 | the computed base point is the one of section 5.1 of RFC 8032, and lies on the curve |
| ReferenceSign.AllBits | bin/python/ed25519.py:59-60 | the sum over all bits of a string is its little-endian number, as Hint and decodeint use it |
| ReferenceSign.SecretIs | bin/python/ed25519.py:62-66 | the sum over bits 3 to 253 plus 2^254 is the clamped number of the C code |
| ReferenceSign.EncodeIntIs | bin/python/ed25519.py:49-51 | the 32 bytes of y modulo 2^256 |
| ReferenceSign.EncodePointIs | bin/python/ed25519.py:53-57 | for reduced coordinates the encoding that ge25519_pack produces |
| ReferenceSign.SamePublicKey | bin/python/ed25519.py:62-66 | the C code and the Python code compute the same public key bytes |
| ReferenceSign.SameSignature | bin/python/ed25519.py:68-78 | the C code and the Python code compute the same signature bytes |
| ReferenceVerify.OnCurveIs | bin/python/ed25519.py:80-83 | the test decides the curve equation |
| ReferenceVerify.DecodePointIs | bin/python/ed25519.py:88-94 | succeeds exactly on the strings that ge25519_unpack_negative_vartime takes, with the same point |
| ReferenceVerify.EncodeDecoded | bin/python/ed25519.py:53-94 | encoding a decoded point gives back the string, canonical or not |
| ReferenceVerify.SameVerdict | bin/python/ed25519.py:96-104 | for a key of order m the C code accepts if and only if the Python code does, the top three bits of S are clear and R is in canonical form |
| Elements.AddElements | src/ed25519-donna/ed25519-donna-impl-base.h:122-127 | limb points for s and t give a limb point for s + t |
| Elements.DoubleElement | src/ed25519-donna/ed25519-donna-impl-base.h:115-120 | a limb point for s gives a limb point for s + s |
| Ladder.OddMultiples | src/ed25519-donna/ed25519-donna-impl-base.h:263-266 | table entry k is (2k + 1) p1 |
| Ladder.Round | src/ed25519-donna/ed25519-donna-impl-base.h:277-291 | one round doubles and adds both digits; table indices are in range and the stale t is never read |
| Ladder.DoubleScalarmult | src/ed25519-donna/ed25519-donna-impl-base.h:251-292 | [s1]p1 + [s2]B for all s1, s2 below 2^255 |
| BaseLadder.Select | src/ed25519-donna/ed25519-donna-impl-base.h:311-317 | the selected row is row |b| of the position, or the neutral row for 0 |
| BaseLadder.Choose | src/ed25519-donna/ed25519-donna-impl-base.h:303-328 | the entry for digit b at position pos is b 256^pos B, also for zero and negative digits |
| BaseLadder.OddEven | src/ed25519-donna/ed25519-donna-impl-base.h:342-362 | odd digits times 16 plus even digits is the number the digits denote |
| BaseLadder.ScalarmultBase | src/ed25519-donna/ed25519-donna-impl-base.h:333-363 | exactly [s]B for every s below 2^255, with the 2xy rows of position 0 completed by the factor d |
| Encoding.Pack | src/ed25519-donna/ed25519-donna-impl-base.h:179-189 | the bytes of y with the parity of x, whatever the projective coordinates |
| Encoding.EncodedUnique | src/ed25519-donna/ed25519-donna-impl-base.h:179-189 | equal points have equal encodings |
| Encoding.RootExists | src/ed25519-donna/ed25519-donna-impl-base.h:206-217 | if num / den is a square, the candidate squares to num / den or to its negative |
| Encoding.CheckRoot | src/ed25519-donna/ed25519-donna-impl-base.h:219-230 | success if and only if one of the two candidates is a root, and then the result is one |
| Encoding.Unpack | src/ed25519-donna/ed25519-donna-impl-base.h:191-239 | succeeds if and only if the 32 bytes decode to a curve point, non-canonical y and the sign bit of x = 0 included, and gives its negative |
| Encoding.DecodesOnce | src/ed25519-donna/ed25519-donna-impl-base.h:191-239 | a string decodes to one point only |
| Encoding.CurveDecodes | src/ed25519-donna/ed25519-donna-impl-base.h:191-239 | every string whose lower 255 bits are the y of a curve point decodes |
| Encoding.EncodedDecodes | src/ed25519-donna/ed25519-donna-impl-base.h:179-239 | the encoding of a curve point decodes to that point |
| Encoding.IsNeutral | src/ed25519-donna/ed25519-donna-batchverify.h:193-202 | true if and only if the point is (0, 1) |
| Sha512.FoldAppend | src/ed25519-donna/ed25519-hash.h:90-106 | folding over a concatenation of whole blocks |
| Sha512Format.PaddedIs | src/ed25519-donna/ed25519-hash.h:153-168 | every byte of the padded message: the message, 0x80, the fewest zeroes, and the 16-byte big-endian length in bits modulo 2^128, up to a multiple of 128 |
| Sha512Format.SerializeByte | src/ed25519-donna/ed25519-hash.h:170-177 | byte 8i + j of the digest is byte j of word i, most significant first |
| Sha512Format.InitialValue | src/ed25519-donna/ed25519-hash.h:108-121 | the eight initial words are the first 64 bits of the fractions of the square roots of 2, 3, 5, 7, 11, 13, 17 and 19 |
| Sha512.State.constructor | src/ed25519-donna/ed25519-hash.h:108-121 | the state that has absorbed nothing |
| Sha512.State.Blocks | src/ed25519-donna/ed25519-hash.h:90-106 | whole blocks are folded and counted, 1024 bits each, modulo 2^128 |
| Sha512.State.Update | src/ed25519-donna/ed25519-hash.h:123-151 | a state that has absorbed m has then absorbed m followed by the input |
| Sha512.State.Final | src/ed25519-donna/ed25519-hash.h:153-178 | the digest is the fold over the padded message |
| Sha512.LengthValue | src/ed25519-donna/ed25519-hash.h:155 | adding the buffered bits to the counter never carries out of the low word and gives the length in bits |
| Sha512.HashChunks | src/ed25519-donna/ed25519-hash.h:108-187 | for every way of cutting a message, init, updates and final give the one-shot digest |
| Ed25519.ClampIs | src/ed25519-donna/ed25519.c:29-31 | the scalar half becomes 2^254 + x mod 2^254 - x mod 8 and the other half stays |
| Ed25519.ClampedForm | src/ed25519-donna/ed25519.c:29-31 | so it is 2^254 + 8 j with j below 2^251 |
| Ed25519.PublicKey | src/ed25519-donna/ed25519.c:26-55 | the encoding of [2^254 + x mod 2^254 - x mod 8]B, where x is the first half of the hash of the secret key |
| Ed25519.Sign | src/ed25519-donna/ed25519.c:58-91 | the nonce r is the hash of the second half of the secret and the message, modulo m; R encodes [r]B, and S is as in SignedResponse |
| Ed25519.SignedResponse | src/ed25519-donna/ed25519.c:78-91 | S = H(R, A, m) a + r modulo m, with the three hashed in this order |
| Ed25519.SignOpen | src/ed25519-donna/ed25519.c:93-116 | for every key and signature: accepted if and only if the top bits of S are clear, the key decodes to an element A, and R is the encoding of [S]B - [h]A |
| Ed25519.SignedVerifies | src/ed25519-donna/ed25519.c:78-115 | a signature satisfies the verification equation and S has at most 253 bits |
| Ed25519.SignThenOpen | src/ed25519-donna/ed25519.c:44-116 | every signature made with its own key is accepted |
| Batch.SignOpenBatch | src/ed25519-donna/ed25519-donna-batchverify.h:204-274 | from bytes: valid[i] is 0 if and only if ed25519_sign_open rejects entry i and its block was not neutral; a remainder of at most 3 is checked one by one; the result is below 4, bit 0 is set if and only if some valid[i] is 0 and bit 1 if and only if a block ended in another point; what each outcome of a block means; no result exactly when a block is undefined |
| BatchEquation.BatchSumIsLost | src/ed25519-donna/ed25519-donna-batchverify.h:219-249 | if every entry satisfies its verification equation, the batch sum is the sum of [m (r h / m)]A, whatever the random factors, so it is neutral if and only if that is |
| BatchEquation.NothingLost | src/ed25519-donna/ed25519-donna-batchverify.h:233-237 | which it is for keys of order m |
| BatchEquation.LossyKey | src/ed25519-donna/ed25519-donna-batchverify.h:233-237 | and for every other key and every size there are entries that satisfy their equation and leave [m]A |
| BatchEquation.LosslessKey | src/ed25519-donna/ed25519-donna-batchverify.h:219-249 | the batch sum of entries that satisfy their equation is always neutral for a key A if and only if [m]A is |
| BatchScalars.Prepare | src/ed25519-donna/ed25519-donna-batchverify.h:219-238 | the scalars of the heap: the weighted sum of the S, then r h for every key, then every r |
| BatchScalars.ScalarsAre | src/ed25519-donna/ed25519-donna-batchverify.h:219-238 | that is: number 0 is the sum of r S modulo m, number i + 1 is r h modulo m of entry i, number n + 1 + i its r |
| BatchScalars.CheckBatch | src/ed25519-donna/ed25519-donna-batchverify.h:219-250 | gives a verdict if and only if the last scalar is no positive multiple of 2^224; it is always the test of a multiple of the remaining element, and it is neutral if and only if the sum over the used entries is for all points when the final step is exact and for points of prime order m |
| BatchScalars.ValidBatch | src/ed25519-donna/ed25519-donna-batchverify.h:219-250 | with the heap extended, entries that satisfy their equation pass exactly when nothing is lost, and always with keys of prime order m and a defined final step |
| BatchBlock.DecodeAll | src/ed25519-donna/ed25519-donna-batchverify.h:242-247 | the points of a block, or failure at the first string that does not decode |
| BatchBlock.CheckBlock | src/ed25519-donna/ed25519-donna-batchverify.h:216-250 | a block of bytes ends undecodable if and only if some key or R does not decode, undefined if and only if it decodes and the final step leaves the limbs, and otherwise as the check decides on its sum |
| BatchValid.GoodBlock | src/ed25519-donna/ed25519-donna-batchverify.h:216-250 | a block of accepted entries with keys of prime order m is neutral when its scalars are all reached |
| BatchValid.GoodBatch | src/ed25519-donna/ed25519-donna-batchverify.h:204-274 | a batch of such entries returns 0 with every valid[i] set |
| BitTricks.MaskedMove | src/ed25519-donna/modm-donna-64bit.h:55-62 | the masked move keeps or replaces a limb |
| BitTricks.ConditionalMove | src/ed25519-donna/curve25519-donna-64bit.h:377-395 | the masked byte move is a conditional |
| BitTricks.ConditionalSwap | src/ed25519-donna/curve25519-donna-64bit.h:397-408 | the masked swap is a conditional swap |
| BitTricks.WindowEqual | src/ed25519-donna/ed25519-donna-impl-base.h:298-301 | the shift of the difference tests equality |
| BitTricks.AbsoluteValue | src/ed25519-donna/ed25519-donna-impl-base.h:306-308 | the masked negation gives the absolute value of a digit |
| BitTricks.Verify | src/ed25519-donna/ed25519-donna.h:66-72 | 1 exactly for equal strings |
| NumberTheory.InverseMod | bin/python/ecdsa/numbertheory.py:185-203 | for m >= 2: an inverse in (0, m) if and only if a and m are coprime, an assertion failure otherwise; m = 0 raises, m < 0 fails the assertion |
| NumberTheory.InverseUnique | bin/python/ecdsa/numbertheory.py:185-203 | there is only one inverse in (0, m) |
| Ecdsa.LeftmostBit | bin/python/ecdsa/ellipticcurve.py:112-116 | the largest power of two that is at most x |
| Ecdsa.HalfDifference | bin/python/ecdsa/ellipticcurve.py:124-138 | dropping the last bits of 3e and e leaves e |
| Weierstrass.ContainsPoint | bin/python/ecdsa/ellipticcurve.py:57-59 | true if and only if the coordinates satisfy the curve equation modulo p |
| Weierstrass.NewPoint | bin/python/ecdsa/ellipticcurve.py:66-74 | the point, or an assertion failure off the curve |
| Weierstrass.ThirdPoint | bin/python/ecdsa/ellipticcurve.py:98-106 | the reflected third point of a chord or tangent satisfies the curve equation |
| Weierstrass.Double | bin/python/ecdsa/ellipticcurve.py:149-166 | the tangent formula, always on the curve, and an assertion failure if and only if 2y has no inverse |
| Weierstrass.Add | bin/python/ecdsa/ellipticcurve.py:85-107 | all five cases of addition; results lie on the curve, and the failures are exactly the missing inverses |
| WeierstrassGroup.AddElements | bin/python/ecdsa/ellipticcurve.py:85-107 | for prime p, addition of points that stand for group elements never fails and stands for the sum |
| WeierstrassGroup.DoubleElement | bin/python/ecdsa/ellipticcurve.py:149-166 | doubling stands for s + s and fails if and only if s has order 2 |
| WeierstrassGroup.ChordCommutes | bin/python/ecdsa/ellipticcurve.py:98-106 | the chord formula does not depend on the order of its points |
| Ecdsa.PointMul | bin/python/ecdsa/ellipticcurve.py:109-138 | [e]P for every e >= 0 after reduction by the order, unless a doubling on the way meets a point of order 2, which fails; the failure for negative e |
| Ecdsa.NeverStuck | bin/python/ecdsa/ellipticcurve.py:109-138 | which does not happen to multiples below a prime order |
| Ecdsa.NewPublicKey | bin/python/ecdsa/ecdsa.py:76-90 | accepted if and only if the generator has an order n, [n]Q is infinity and both coordinates lie in [0, n); which error is raised otherwise |
| Ecdsa.Sign | bin/python/ecdsa/ecdsa.py:127-151 | for every generator order n: success if and only if the multiplication does not fail, [k]G is finite with x not 0, k is coprime to n and hash + d x is not 0 modulo n, then r is unreduced and s k = hash + d r mod n; which error is raised otherwise |
| Ecdsa.PrimeSigns | bin/python/ecdsa/ecdsa.py:127-151 | for prime n that is: k, G, the first coordinate r of [k]G and hash + d r are not zero |
| Ecdsa.Verifies | bin/python/ecdsa/ecdsa.py:93-111 | false outside the ranges, otherwise the comparison of the first coordinate of [u1]G + [u2]Q with r, and the failure at infinity |
| Ecdsa.CheckPointIs | bin/python/ecdsa/ecdsa.py:106-109 | for a signature the checked point is [k]G |
| Ecdsa.SignThenVerify | bin/python/ecdsa/ecdsa.py:93-151 | whenever signing succeeds, the signature verifies if and only if the first coordinate of [k]G is below n |
| EcdsaInstance.UnreducedSignature | bin/python/ecdsa/ecdsa.py:76-151 | on y^2 = x^3 + 10x + 8 modulo 11 with generator (2, 5) of order 7: a public key that is accepted, and a signature (7, 4) made with it that does not verify |
| EcdsaInstance.SevenPointsMeetLaws | bin/python/ecdsa/ellipticcurve.py:85-107 | the hypotheses on the group of curve points can be met |
| Der.LengthRoundTrip | bin/python/ecdsa/der.py:124-145 | a length reads back, with the number of bytes it takes, if and only if its own length is at most 127 bytes |
| DerFormat.LengthBytes | bin/python/ecdsa/der.py:124-133 | one byte below 128, otherwise 0x80 + k and the k big-endian bytes of the length, the first not zero, as section 8.1.3 of X.690 has it |
| DerFormat.UsualLengths | bin/python/ecdsa/der.py:124-133 | the bytes themselves for all lengths from 128 to 65535 |
| DerFormat.ReadLengthIs | bin/python/ecdsa/der.py:135-145 | short form, long form, and the three failures: nothing to read, no length bytes, too few of them |
| Der.IntegerRoundTrip | bin/python/ecdsa/der.py:12-25 | an integer and the bytes after it come back if and only if it has at most 127 content bytes |
| Der.ContentShortest | bin/python/ecdsa/der.py:12-25 | the content is the shortest form of a number without a high bit in its first byte |
| DerFormat.ContentSize | bin/python/ecdsa/der.py:12-25 | r has at most n content bytes if and only if r < 2^(8n - 1) |
| DerFormat.IntegerBytes | bin/python/ecdsa/der.py:12-25 | tag 2, one length byte and the shortest non-negative content of value r, for 0 <= r < 2^2039; which error is raised otherwise |
| DerFormat.IntegerRange | bin/python/ecdsa/der.py:12-25 | an integer comes back if and only if it is below 2^1015 |
| DerFormat.RemoveIntegerIs | bin/python/ecdsa/der.py:98-107 | the value and the rest, and the error for another tag, a high bit, and no content; a content that ends early is accepted |
| Der.RemoveSize | bin/python/ecdsa/der.py:98-107 | a number that was removed had room for its content between header and rest |
| Der.EncodeNumber | bin/python/ecdsa/der.py:41-49 | base-128 digits, most significant first, continuation bit on all but the last |
| Der.ReadNumber | bin/python/ecdsa/der.py:109-122 | the number up to the first byte without continuation bit, or an index error |
| Der.NumberRoundTrip | bin/python/ecdsa/der.py:41-49 | a number reads back whatever follows it |
| DerFormat.NumberBytes | bin/python/ecdsa/der.py:41-49 | the bytes are chained by their high bits, have the value n in seven-bit digits, and start with no zero digit |
| DerFormat.ReadNumberIs | bin/python/ecdsa/der.py:109-122 | reads every chained string, shortest or not, and fails on a string without a last byte |
| Der.ReadNumbers | bin/python/ecdsa/der.py:86-90 | the loop over the body of an object identifier |
| Der.ObjectRoundTrip | bin/python/ecdsa/der.py:31-37 | an object identifier and the bytes after it come back for first <= 2 and second <= 39 |
| DerFormat.OidBytes | bin/python/ecdsa/der.py:31-37 | tag 6, length, 40 first + second and the numbers; the two assertions; an empty body cannot be read |
| DerFormat.PublicKeyOid | bin/python/ecdsa/der.py:31-49 | the identifier 1.2.840.10045.2.1 of elliptic-curve keys, byte by byte |
| Der.ElementEncoded | bin/python/ecdsa/der.py:62-77 | an element whose length was written by encode_length is taken apart exactly, rest untouched |
| Der.SignatureRoundTrip | bin/python/ecdsa/util.py:197-246 | sigdecode_der inverts sigencode_der if and only if both numbers have at most 127 content bytes |
| DerFormat.SignatureBytes | bin/python/ecdsa/util.py:197-198 | tag 0x30, the length, then r and s |
| DerFormat.NotEncoded | bin/python/ecdsa/util.py:197-198 | negative numbers and numbers of 2^2039 or more are not encoded, and which error is raised |
| DerFormat.JunkAfter | bin/python/ecdsa/util.py:235-240 | an encoded signature followed by anything is refused with UnexpectedDER |
| DerFormat.JunkInside | bin/python/ecdsa/util.py:241-246 | so is a sequence with anything after the second number |
| DerFormat.Refused | bin/python/ecdsa/util.py:235-240 | for all strings: another tag, or anything after the sequence, raises UnexpectedDER; the empty string raises IndexError |
| Der.CurveSignature | bin/python/ecdsa/util.py:197-246 | which covers every number below 2^1008, so all supported curve orders |

## Left out

- In-place update of limb numbers: the C functions write through out-pointers and may alias them with inputs (`curve25519_mul(r->x, r->x, den)`); limb numbers are values here, so aliasing and order of writes inside one such call are not captured.
- BosCoster.MultiScalarmult: the number of entries must be odd and at least 5, which is what its only caller passes (2n + 1 with n > 3).
- WeierstrassGroup.AddElements: for coordinates x in [0, p), as all points of the supported curves have; `Weierstrass.Add` covers the others.
- ReferenceVerify.SameVerdict: for keys of order m; for other keys the two codes multiply by different numbers.
- Ecdsa.Verifies: for generators of prime order, as all supported curves have.
- Ecdsa.NewPublicKey: a point at infinity is refused with a RuntimeError, because Python 2 orders None below 0; Python 3 raises a TypeError there.
- Batch.SignOpenBatch: what the C code does after the final step has read outside the limbs of a last scalar; the model ends there without a result.
- Der.ObjectRoundTrip: for bodies whose length takes at most 127 bytes to write, the guard of `encode_length`.
- Associativity of the Edwards law and of the chord-and-tangent law, the primality of 2^255 - 19 and of the group orders, and that d is not a square: hypotheses.
- Der.Byte: the error for a value above 255 is a ValueError; from Python 3.2 on it is an OverflowError.
- The contents of the precomputed tables: their meaning is a hypothesis of the ladders.
- The SHA-512 compression function: an arbitrary function; nothing is claimed about hash strength.
- Whether a batch that contains an invalid entry can still sum to the neutral element: a question of probability.
- `expand_raw256_modm` and `curved25519_scalarmult_basepoint`: the same limb conversion and ladder again.
- The 32-bit limb layouts, the SSE2 and inline-assembly variants: other implementations of the same functions.
- `jacobi`, `square_root_mod_prime`, `is_prime`, key file and PEM handling, and random number generation.
- The scripts under `bin`, the build files and `src/beast`.
