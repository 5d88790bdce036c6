# Verified arithmetic and state machines under the game server

This Dafny project models the arithmetic and protocol code that the server builds on and proves what that code is for.
`dafny verify dfyconfig.toml` checks everything.

* **Curve25519 and Ed25519** (`dep/openssl_ed25519/curve25519.c`). `Fe51`, `Fe51Ops`, `Fe51Bytes` and `Fe51Invert` are the
  five-limb field arithmetic on arrays of 64-bit limbs: every intermediate value is shown to fit its C type (`MachineInts`),
  arguments may alias as they do in the code, and every result is the field operation modulo 2^255 - 19. `X25519` is the
  ladder; it computes the function of section 5 of RFC 7748, which `X25519Spec` writes down. `MontgomeryLadder` says what
  that function is: the u-coordinate of a multiple of a point, for every scalar and every u. `ScReduce` and `ScMulAdd` are
  the scalar reductions modulo the group order, which `OrderCertificate` proves prime. `Slide`, `DoubleScalarMult` and
  `ScalarMultBase` are the two signed-digit recodings and the multiplications they drive, over any abelian group (`Group`).
  `Decompress` is point decompression; it accepts exactly the y of curve points. `PointFormulas` are the library's formulas
  for sums, differences and doubles. `EdwardsAlgebra` and `Edwards` prove that the points of the curve are an abelian group,
  and `Edwards25519` that what holds over any abelian group holds over them. Under all this stand `Primes`,
  `PrimeCertificate`, which proves 2^255 - 19 prime, `PrimeField`, `QuadraticResidues` and `FieldLaws`.
* **CRC-32** (`dep/zlib/crc32.c`). `CrcPoly` is the ring of polynomials over GF(2) modulo the CRC polynomial, `CrcOrder` the
  order of x in it, `CrcBytes` and `CrcWords` the register over bytes and 64-bit words. `Crc32` builds the tables, runs the
  braided CRC over a buffer (five braids of 64-bit words, little-endian) and combines CRCs. `Once` is the concurrent
  initialisation, for any number of threads, with its termination.
* **SFMT** (`dep/SFMT`). `SfmtSpec` is the recurrence, `Sfmt` the in-place refill, the bulk fill and the reader, `SfmtInit`
  seeding and period certification.
* **Adler-32** (`dep/zlib/adler32.c`). `Adler32` has deferred reduction, its exact limit, remainders without division, and
  combination.
* **gz files** (`dep/zlib/gzlib.c`, `dep/zlib/gzread.c`). `GzFile` has seek, tell, rewind and read against a single cursor.

`Bits`, `BitVectors`, `BitNumbers`, `Radix`, `LittleEndian` and `Field25519` hold the shared mathematics. C's unsigned and signed
integers are subset types of `int` whose ranges are proof obligations; the CRC and SFMT parts use bit-vectors of the width of
the C types. C's shifts, masks and ors on non-negative integers are `Shr`, `And` and `Or` of `Bits`, or division and remainder
by the power of two.

Points where the code and a document differ, modelled as the code has it:

* `ge_frombytes_vartime` accepts x = 0 with the sign bit set, and y at or above p; section 5.1.3 of RFC 8032 rejects both.
  `Decompress.FromBytesVartime` says by y and the sign bit exactly when the answer is that of the standard.
  `Decompress.SignOfZeroIgnored` and `Decompress.LargeOneAccepted` decode strings for which it is not, and
  `Decompress.LargeYAccepted` says that a y at or above p is taken for its residue.
* A `gzseek64` that is refused by its first checks changes nothing, but one that fails after them has already dropped a
  pending seek request. So a failed seek keeps the told position exactly if it was refused or no request was pending
  (`GzFile.GzState.Seek`). `GzFile.FailedSeekMoves` is a run where it does not.
* `slide` keeps the value of a scalar exactly if it does not overflow by `Slide.Overflows`, and loses 2^256 otherwise
  (`Slide.Slide`). All scalars below 2^255 are kept; `Slide.LosesTopBit` names one that is not.
* `adler32_z` on one byte reduces by at most one subtraction, which is not enough for some first arguments that are no
  checksums; `Adler32.Adler32Z` says exactly for which, and `Adler32.OneByteFails` is one.

## Model

| member | source | states |
|---|---|---|
| Fe51.CarriedValue | dep/openssl_ed25519/curve25519.c:432-447 | the lazy carry chain, which feeds the top carry back times 19, keeps the value modulo p |
| Fe51.CarriedBounds | dep/openssl_ed25519/curve25519.c:432-447 | whatever 128-bit columns a product of limbs below 2^54 can have, the chain leaves limbs below 2^51 + 2^13 |
| Fe51.ProductValue | dep/openssl_ed25519/curve25519.c:392-448 | for arbitrary limbs the folded and carried columns are the product of the two field values |
| Fe51.ProductBounds | dep/openssl_ed25519/curve25519.c:392-448 | limbs below 2^54 multiply to limbs below 2^51 + 2^13, hence again below 2^54 |
| Fe51Ops.MulAccumulates | dep/openssl_ed25519/curve25519.c:397-430 | the order in which fe51_mul accumulates products, g pre-multiplied by 19, gives the schoolbook columns |
| Fe51Ops.SqAccumulates | dep/openssl_ed25519/curve25519.c:463-483 | the doubled terms of fe51_sq give the same columns as fe51_mul of f with itself |
| Fe51Ops.CarryChain | dep/openssl_ed25519/curve25519.c:432-447 | the in-place carries compute the specified limbs with every value inside its 64 or 128 bits |
| Fe51Ops.Mul | dep/openssl_ed25519/curve25519.c:392-448 | for limbs below 2^54, with any aliasing, no u64 or u128 overflows and h becomes f g modulo p with small limbs |
| Fe51Ops.Sq | dep/openssl_ed25519/curve25519.c:450-502 | limb for limb what fe51_mul(h, f, f) writes, and so the square |
| Fe51Ops.Mul121666 | dep/openssl_ed25519/curve25519.c:504-528 | 121666 f modulo p with small limbs, without overflow |
| Fe51Ops.Add | dep/openssl_ed25519/curve25519.c:531-538 | the sum of two products' outputs, limbs below 2^54, with any aliasing |
| Fe51Ops.Sub | dep/openssl_ed25519/curve25519.c:540-551 | the difference modulo p; adding 2p first keeps every limb from going below zero, with any aliasing |
| Fe51Ops.SwapLimb | dep/openssl_ed25519/curve25519.c:580-591 | the masked exclusive-or exchange is a conditional swap of one limb |
| Fe51Ops.CSwap | dep/openssl_ed25519/curve25519.c:580-591 | both elements are exchanged if b is 1 and left alone if b is 0 |
| Fe51Bytes.FiveLoads | dep/openssl_ed25519/curve25519.c:304-308 | the five overlapping loads cover the 32 bytes exactly once |
| Fe51Bytes.FromBytes | dep/openssl_ed25519/curve25519.c:302-320 | the limbs stand for the little-endian integer modulo 2^255, each below 2^51 |
| Fe51Bytes.ExcessBounds | dep/openssl_ed25519/curve25519.c:331-336 | the comparison's carry is the quotient of the value plus 19 by 2^255 |
| Fe51Bytes.FrozenValue | dep/openssl_ed25519/curve25519.c:331-344 | every element below 2p is frozen to its residue in [0, p) |
| Fe51Bytes.Compare | dep/openssl_ed25519/curve25519.c:331-336 | q is 1 exactly for elements at or above p, without overflow |
| Fe51Bytes.Freeze | dep/openssl_ed25519/curve25519.c:322-344 | the limbs of the unique representative, each below 2^51, without overflow |
| Fe51Bytes.SmashedValue | dep/openssl_ed25519/curve25519.c:346-378 | the 32 bytes cut out of five reduced limbs stand for the same integer |
| Fe51Bytes.ToBytes | dep/openssl_ed25519/curve25519.c:322-379 | the output bytes are the residue in [0, p) of any element below 2p |
| Fe51Bytes.EncodingsAgree | dep/openssl_ed25519/curve25519.c:322-379 | two encodings are equal if and only if the encoded elements are congruent modulo p |
| Fe51Bytes.Reencode | dep/openssl_ed25519/curve25519.c:302-379 | decoding and encoding any 32 bytes s gives (s mod 2^255) mod p |
| Field25519.PowDouble | dep/openssl_ed25519/curve25519.c:593-682 | squaring doubles the exponent of a run of squarings |
| Field25519.OnesConcat | dep/openssl_ed25519/curve25519.c:593-682 | b squarings and one product turn exponents of a and b one-bits into one of a + b |
| Field25519.OnesFinish | dep/openssl_ed25519/curve25519.c:676-681 | the last squarings and product of the chain give 2^(k+n) - 2^n + e |
| Fe51Invert.SqTimes | dep/openssl_ed25519/curve25519.c:624-627 | a squaring loop raises to 2^n with limbs in range after every turn |
| Fe51Invert.Link | dep/openssl_ed25519/curve25519.c:624-674 | each squaring run and product of the chain joins two blocks of one-bits in the exponent |
| Fe51Invert.Invert | dep/openssl_ed25519/curve25519.c:593-682 | out becomes z^(p - 2), that is z^(2^255 - 21), for every z, and so the inverse of every z but zero; out may alias z |
| X25519.SmallConstant | dep/openssl_ed25519/curve25519.c:731-737 | BB + 121666 E of the code is AA + 121665 E of RFC 7748 |
| X25519.LadderTurn | dep/openssl_ed25519/curve25519.c:717-737 | one turn on the shared, aliased limb arrays is one turn of the RFC's ladder, with all limb bounds kept |
| X25519.BitTurn | dep/openssl_ed25519/curve25519.c:714-737 | the swap, deferred by one turn, and the arithmetic together are one turn of the RFC for bit b |
| X25519.Clamp | dep/openssl_ed25519/curve25519.c:703-706 | the three byte masks are the RFC's decodeScalar25519 of the whole scalar |
| X25519.NoFinalSwap | dep/openssl_ed25519/curve25519.c:713-740 | after the loop the swap bit of a clamped scalar is 0, so leaving out the RFC's last swap is sound |
| X25519.Climb | dep/openssl_ed25519/curve25519.c:713-738 | after 255 turns the registers are those of RFC 7748, the bounds being invariant |
| X25519.Descend | dep/openssl_ed25519/curve25519.c:740-742 | the output bytes are x2 z2^(p - 2) in canonical form |
| X25519.Unswapped | dep/openssl_ed25519/curve25519.c:740-742 | the RFC's result read from the registers without its last conditional swap |
| X25519.ScalarMult | dep/openssl_ed25519/curve25519.c:688-745 | for all scalars and points the output is X25519 of RFC 7748 |
| MontgomeryLadder.TurnFormulas | dep/openssl_ed25519/curve25519.c:717-737 | a turn makes (x2^2 - z2^2)^2, 4 x2 z2 (x2^2 + 486662 x2 z2 + z2^2), 4 (x2 x3 - z2 z3)^2 and 4 x1 (x2 z3 - z2 x3)^2 of its registers |
| MontgomeryLadder.DoubleStands | dep/openssl_ed25519/curve25519.c:717-737 | the first two are the u-coordinate of the doubled point, whatever the point and the common factor |
| MontgomeryLadder.AddStands | dep/openssl_ed25519/curve25519.c:717-737 | the other two are the u-coordinate of the sum of two points if x1 is that of their difference |
| MontgomeryLadder.TurnHolds | dep/openssl_ed25519/curve25519.c:714-737 | a turn for bit b takes registers that hold the u-coordinates of m P and (m + 1) P, in the order of swap, to those for 2 m + b |
| MontgomeryLadder.RegistersHold | dep/openssl_ed25519/curve25519.c:713-738 | after the bits of the scalar from t on, m is the scalar divided by 2^t |
| MontgomeryLadder.EveryU | dep/openssl_ed25519/curve25519.c:688-745 | every u is the u-coordinate of a point of edwards25519 or of its twist |
| MontgomeryLadder.ComputesMultiple | dep/openssl_ed25519/curve25519.c:688-745 | X25519 is the u-coordinate of the multiple, by the clamped scalar, of any such point, and 0 for the neutral element |
| MontgomeryLadder.X25519Multiplies | dep/openssl_ed25519/curve25519.c:688-745 | so it is for every scalar and every u, of the curve or of the twist |
| EdwardsAlgebra.Associativity | dep/openssl_ed25519/curve25519.c:1780-1782 | the cross products of numerators and denominators of (P + Q) + R and P + (Q + R) agree |
| Edwards.Complete | dep/openssl_ed25519/curve25519.c:1780-1782 | no denominator of the addition law is ever zero |
| Edwards.Closed | dep/openssl_ed25519/curve25519.c:1780-1782 | the sum of two points of the curve is on the curve |
| Edwards.Associates | dep/openssl_ed25519/curve25519.c:1780-1782 | addition on the curve is associative, without exception |
| Edwards.TimesAdd | dep/openssl_ed25519/curve25519.c:1780-1782 | multiples of a point add |
| Edwards25519.EdAbelian | dep/openssl_ed25519/curve25519.c:1780-1782 | the pairs with -x^2 + y^2 = 1 + d x^2 y^2 are an abelian group, so that what is stated over any abelian group holds over them |
| Edwards25519.SameCurve | dep/openssl_ed25519/curve25519.c:1780-1782 | this is the curve of decompression |
| QuadraticResidues.DNotSquare | dep/openssl_ed25519/curve25519.c:1780-1782 | d = -121665/121666 is no square, which makes the addition law complete |
| PointFormulas.GeAdd | dep/openssl_ed25519/curve25519.c:2023-2038 | ge_add computes the sum of the points its operands stand for, on field values |
| PointFormulas.GeSub | dep/openssl_ed25519/curve25519.c:2041-2056 | ge_sub their difference |
| PointFormulas.GeMadd | dep/openssl_ed25519/curve25519.c:1989-2003 | ge_madd the sum with a precomputed point |
| PointFormulas.GeMsub | dep/openssl_ed25519/curve25519.c:2006-2020 | ge_msub the difference from one |
| PointFormulas.GeDouble | dep/openssl_ed25519/curve25519.c:1965-1978 | ge_p2_dbl the double |
| PointFormulas.GeDoubleExtended | dep/openssl_ed25519/curve25519.c:1981-1986 | and so does ge_p3_dbl |
| PointFormulas.ToP2 | dep/openssl_ed25519/curve25519.c:1948-1953 | the conversion from completed to projective coordinates keeps the point |
| PointFormulas.ToP3 | dep/openssl_ed25519/curve25519.c:1956-1962 | and so does the one to extended coordinates |
| PointFormulas.ToCached | dep/openssl_ed25519/curve25519.c:1933-1945 | the cached form belongs to the same point; the limbs of d2 are 2 d |
| Group.TimesAdd | dep/openssl_ed25519/curve25519.c:4535-4603 | integer multiples of a point add, for all signs |
| Slide.PrefixBound | dep/openssl_ed25519/curve25519.c:4436-4458 | the digits below position t, their last nonzero one t or more places back, sum to less than 2^(t+3) |
| Slide.Carry | dep/openssl_ed25519/curve25519.c:4445-4451 | the inner carry adds one unit at its position, and if it runs off the end loses exactly 2^256 and leaves only zeros |
| Slide.RunOff | dep/openssl_ed25519/curve25519.c:4445-4451 | the carry can only run off for scalars of at least 2^255 |
| Slide.Gather | dep/openssl_ed25519/curve25519.c:4437-4457 | one window: an odd digit of size at most 15, four zeros after it, the sum kept |
| Slide.WindowDecides | dep/openssl_ed25519/curve25519.c:4437-4457 | however an odd digit of size at most 15 and a rest of k - 5 bits make up an odd number of k bits, or that number less 2^k, the loss is the one of the rule |
| Slide.GatherDecides | dep/openssl_ed25519/curve25519.c:4437-4457 | the greedy choices of one window lose 2^256 now or later exactly if the digits that are left overflow by the same rule |
| Slide.TopBound | dep/openssl_ed25519/curve25519.c:4426-4459 | no such digit string reaches 2^256 - 2^251 |
| Slide.LosesTopBit | dep/openssl_ed25519/curve25519.c:4426-4459 | 17 * 2^251, which is 2^255 + 2^251, loses 2^256 |
| Slide.Slide | dep/openssl_ed25519/curve25519.c:4426-4459 | the digits are a width-5 non-adjacent form; they sum to the scalar, less 2^256 exactly if the scalar overflows by a rule on its bits alone, which none below 2^255 does and all from 2^256 - 2^251 on do |
| DoubleScalarMult.BuildTable | dep/openssl_ed25519/curve25519.c:4549-4572 | entry j of the table is (2j + 1) A |
| DoubleScalarMult.AddDigit | dep/openssl_ed25519/curve25519.c:4585-4599 | each nonzero digit d adds d P, with the table index in 0..7 |
| DoubleScalarMult.DigitTurn | dep/openssl_ed25519/curve25519.c:4583-4601 | one doubling and the two digits at position i extend the sums by one position |
| DoubleScalarMult.SkipZeros | dep/openssl_ed25519/curve25519.c:4576-4580 | the skipped digits contribute nothing |
| DoubleScalarMult.Horner | dep/openssl_ed25519/curve25519.c:4582-4602 | the doubling loop computes the sum of both digit strings times A and B |
| DoubleScalarMult.DoubleScalarMult | dep/openssl_ed25519/curve25519.c:4535-4603 | over any abelian group, m A + n B for the two scalars, each less 2^256 exactly if it overflows, and so for the scalars themselves below 2^255 |
| ScalarMultBase.Interleaved | dep/openssl_ed25519/curve25519.c:4256-4276 | the radix-16 value is the even digits plus 16 times the odd digits, both in radix 256 |
| ScalarMultBase.Nibbles | dep/openssl_ed25519/curve25519.c:4239-4242 | the 64 nibbles stand for the scalar |
| ScalarMultBase.CarryDigit | dep/openssl_ed25519/curve25519.c:4247-4252 | one carry keeps the value and makes the digit at most 8 in size |
| ScalarMultBase.Recode | dep/openssl_ed25519/curve25519.c:4239-4253 | for a[31] at most 127, all digits are in -8..8 and the value is unchanged |
| ScalarMultBase.Lookup | dep/openssl_ed25519/curve25519.c:4206-4214 | the eight conditional moves pick entry babs - 1 or leave the neutral element |
| ScalarMultBase.Select | dep/openssl_ed25519/curve25519.c:4192-4219 | the branch-free lookup returns b 256^pos B for every b in -8..8 |
| ScalarMultBase.Pass | dep/openssl_ed25519/curve25519.c:4256-4261 | one pass adds the digits of one parity in radix 256 |
| ScalarMultBase.ScalarMultBase | dep/openssl_ed25519/curve25519.c:4230-4279 | over any abelian group, odd pass, times 16, even pass give a B for every a with a[31] at most 127 |
| ScReduce.FoldedByValue | dep/openssl_ed25519/curve25519.c:4661-4707 | the first t multiples of a folded limb change the value as their digits say |
| ScReduce.FoldValue | dep/openssl_ed25519/curve25519.c:4661-4707 | folding limb i away subtracts L times the limb's weight twelve limbs below |
| ScReduce.Fold | dep/openssl_ed25519/curve25519.c:4661-4667 | the in-place fold, every product and sum inside int64 |
| ScReduce.FoldSix | dep/openssl_ed25519/curve25519.c:4661-4707 | six folds leave zeros above, bounded limbs below, and the value modulo L |
| ScReduce.CarryRound | dep/openssl_ed25519/curve25519.c:4709-4711 | a rounding carry keeps the value and leaves a limb of size at most 2^20 |
| ScReduce.CarryTwice | dep/openssl_ed25519/curve25519.c:4709-4742 | the even and the odd rounding pass together |
| ScReduce.CarryFloor | dep/openssl_ed25519/curve25519.c:4838-4873 | the flooring carries keep the value and make digits of 21 bits |
| ScReduce.FoldedRange | dep/openssl_ed25519/curve25519.c:4830-4838 | before the flooring carries the value lies strictly between -2^252 and 2^252 |
| ScReduce.TopLimb | dep/openssl_ed25519/curve25519.c:4871-4881 | above plain digits the top limb brackets the value |
| ScReduce.LoadLimbIs | dep/openssl_ed25519/curve25519.c:4619-4642 | each shifted and masked load is a radix-2^21 digit of the input |
| ScReduce.LoadLimbs | dep/openssl_ed25519/curve25519.c:4619-4642 | the 24 limbs stand for the 64-byte integer |
| ScReduce.StoredByteIs | dep/openssl_ed25519/curve25519.c:4917-4948 | each output byte, within a limb or across two, is a byte of the value |
| ScReduce.StoreBytes | dep/openssl_ed25519/curve25519.c:4917-4948 | the first 32 bytes stand for the limbs' value, the others are untouched |
| ScReduce.Shrink | dep/openssl_ed25519/curve25519.c:4661-4836 | folds and carries bring the value below 2^252 in size modulo L, everything inside int64 |
| ScReduce.Finish | dep/openssl_ed25519/curve25519.c:4838-4915 | the last fold, decided by a flooring carry, makes the value canonical, in [0, L) |
| ScReduce.ScReduce | dep/openssl_ed25519/curve25519.c:4617-4949 | for every 64-byte string the first 32 bytes become the integer modulo L, strictly below L |
| ScMulAdd.ColumnsValue | dep/openssl_ed25519/curve25519.c:5048-5070 | the columns of products of limbs make up the product of the two integers |
| ScMulAdd.ColumnSize | dep/openssl_ed25519/curve25519.c:5048-5070 | no column exceeds 2^50, only one having the product of both top limbs |
| ScMulAdd.LoadTwelve | dep/openssl_ed25519/curve25519.c:4964-4999 | twelve limbs stand for a 32-byte integer |
| ScMulAdd.Products | dep/openssl_ed25519/curve25519.c:5048-5071 | the 24 columns stand for a b + c, every sum inside int64 |
| ScMulAdd.FirstCarries | dep/openssl_ed25519/curve25519.c:5073-5142 | two carry passes keep the value and bring all limbs below 2^31 |
| ScMulAdd.ScMulAdd | dep/openssl_ed25519/curve25519.c:4961-5432 | for all 32-byte strings the output is (a b + c) modulo L |
| OrderCertificate.OrderValue | dep/openssl_ed25519/curve25519.c:4612-4614 | L is 2^252 + 27742317777372353535851937790883648493 |
| OrderCertificate.PrimeL | dep/openssl_ed25519/curve25519.c:4605-4614 | L is prime, by a chain of seven primality proofs |
| Decompress.Constants | dep/openssl_ed25519/curve25519.c:1849-1857 | the limbs of d and sqrtm1 satisfy 121666 d = -121665 and sqrtm1^2 = -1 |
| Decompress.Pow22523 | dep/openssl_ed25519/curve25519.c:1719-1775 | z^(2^252 - 3) for every z |
| Decompress.RootIffOnCurve | dep/openssl_ed25519/curve25519.c:1869-1872 | v x^2 = u if and only if -x^2 + y^2 = 1 + d x^2 y^2 |
| Decompress.CandidateChecks | dep/openssl_ed25519/curve25519.c:1884-1893 | the two zero tests hold exactly if the candidate, or the candidate times sqrtm1, is on the curve |
| Decompress.NegParity | dep/openssl_ed25519/curve25519.c:1895-1897 | exactly one of x and -x is odd unless x is 0 |
| Decompress.FromBytesVartime | dep/openssl_ed25519/curve25519.c:1859-1901 | it accepts if and only if one of the two candidates is on the curve, and the point is a function of y and the sign bit: on the curve, Z = 1, T = XY, and the parity of x is the sign bit if and only if y^2 is not 1 or the bit is 0; the answer is the one of section 5.1.3 of RFC 8032 if and only if the residue of y is refused, or y is below p and y^2 is not 1 or the bit is 0 |
| Decompress.DecodedPoint | dep/openssl_ed25519/curve25519.c:1884-1900 | every accepted y and sign bit decode to a point of the curve with the parity asked for, unless x is 0 |
| Decompress.ZeroOnCurve | dep/openssl_ed25519/curve25519.c:1869-1893 | the points with x = 0 are those with y^2 = 1, and for these the candidate is 0 |
| Decompress.SignOfZeroIgnored | dep/openssl_ed25519/curve25519.c:1859-1901 | the 32 bytes of y = 1 with the sign bit set are accepted, and x = 0 has not the parity of the sign bit |
| Decompress.LargeYAccepted | dep/openssl_ed25519/curve25519.c:1859-1901 | two strings with the same sign bit whose y differ by p are both accepted or both refused, and decode to the same point |
| Decompress.LargeOneAccepted | dep/openssl_ed25519/curve25519.c:1859-1901 | y = p + 1 is accepted as y = 1 |
| Decompress.AcceptsEveryPoint | dep/openssl_ed25519/curve25519.c:1874-1893 | the y of every curve point is accepted |
| Decompress.AcceptedIff | dep/openssl_ed25519/curve25519.c:1874-1893 | y is accepted if and only if there is a point of the curve over it |
| Decompress.TwoRoots | dep/openssl_ed25519/curve25519.c:1866-1893 | two points of the curve over the same y have the same x up to the sign |
| Decompress.DecodesIff | dep/openssl_ed25519/curve25519.c:1859-1901 | section 5.1.3 of RFC 8032 decodes a y and sign bit if and only if y is below p, some point of the curve is over it, and not both y^2 = 1 and the bit 1 |
| Decompress.DecodesOne | dep/openssl_ed25519/curve25519.c:1859-1901 | it decodes them to one x only |
| PrimeCertificate.PrimeP | dep/openssl_ed25519/curve25519.c:758 | 2^255 - 19, the modulus of the field, is prime, by a chain of five primality proofs |
| PrimeField.Euler | dep/openssl_ed25519/curve25519.c:1874-1893 | every residue but zero has 1 or -1 as its power (p - 1) / 2, which is what the second candidate relies on |
| PrimeField.Inverts | dep/openssl_ed25519/curve25519.c:593-682 | z^(p - 2) is the inverse of every z but zero |
| CrcPoly.StepsAdd | dep/zlib/crc32.c:317-318 | the shift register is linear over exclusive or, for any number of steps |
| CrcPoly.StepsNonzero | dep/zlib/crc32.c:152-154 | no power of x is zero, so multmodp's condition is met for all table entries |
| CrcPoly.MulCommutes | dep/zlib/crc32.c:151-170 | the product of polynomials is commutative, though it reduces only one factor |
| CrcPoly.MulXPow | dep/zlib/crc32.c:151-170 | multiplying by x^n is n steps of the shift register |
| CrcPoly.XPowAdd | dep/zlib/crc32.c:172-187 | powers of x multiply by adding exponents |
| CrcPoly.MulTurn | dep/zlib/crc32.c:160-168 | one turn of the product loop keeps the sum of what is done and what is left, also at the early exit |
| CrcPoly.Multmodp | dep/zlib/crc32.c:155-170 | the product modulo the CRC polynomial, for every a but zero; the loop ends |
| CrcOrder.SquaresArePowers | dep/zlib/crc32.c:325-329 | the 33 squarings from x on, evaluated: x^(2^32) = x |
| CrcOrder.Periodic | dep/zlib/crc32.c:176-187 | the exponent counts only modulo 2^32 - 1 |
| CrcOrder.Wraps | dep/zlib/crc32.c:180-185 | indexing the power table by k & 31 is right for every k |
| CrcBytes.CrcAppend | dep/zlib/crc32.c:991-1006 | the register over a concatenation |
| CrcBytes.CrcDifference | dep/zlib/crc32.c:1021-1026 | a difference in the starting register becomes 8 n steps of that difference |
| CrcBytes.EvenSteps | dep/zlib/crc32.c:315-319 | zeros leaving the register make its steps plain shifts |
| CrcBytes.TableByte | dep/zlib/crc32.c:716-719 | one table lookup per byte does the work of eight steps |
| CrcBytes.TopByte | dep/zlib/crc32.c:528-540 | a byte at the top of the register is that byte at its bottom 24 steps later |
| CrcBytes.CrcIsSum | dep/zlib/crc32.c:799-834 | a register delayed by n steps is the sum of what its start and each byte contribute |
| CrcWords.WordBytes | dep/zlib/crc32.c:724-733 | a word loaded from memory has the bytes of memory in order |
| CrcWords.WordLoop | dep/zlib/crc32.c:676-681 | eight turns of the word loop leave the CRC of the word, the upper half being zero |
| CrcWords.Absorb | dep/zlib/crc32.c:672-681 | adding a register into a word and taking the word's CRC absorbs the word |
| CrcWords.Delay | dep/zlib/crc32.c:775-797 | any part of the register may be taken out, moved on by k words and added in there |
| CrcWords.Braid | dep/zlib/crc32.c:775-835 | a word may be replaced by its CRC, four words further on, added into the fifth word after it |
| Crc32.Streams | dep/zlib/crc32.c:694-1010 | feeding a buffer in pieces gives the CRC of the whole |
| Crc32.Combines | dep/zlib/crc32.c:1021-1026 | the CRC of a concatenation is 8 n steps of the first CRC plus the second CRC, from any starting CRC |
| Crc32.CrcOfWords | dep/zlib/crc32.c:721-724 | the register over whole words is the register over their bytes |
| Crc32.BraidBlock | dep/zlib/crc32.c:779-835 | five words may be replaced by five registers added into the next five words |
| Crc32.BlockTurn | dep/zlib/crc32.c:779-835 | a block of a byte string goes into the registers that the next block takes in |
| Crc32.LastBlock | dep/zlib/crc32.c:837-851 | chaining the five braids through crc_word gives the register after the last block |
| Crc32.EntryIs | dep/zlib/crc32.c:528-540 | i << 24 times x^(8 (N W + 3 - k)) is byte i moved on to the same place of the next block |
| Crc32.SumTurn | dep/zlib/crc32.c:817-834 | one lookup for byte k extends the sum to the first k + 1 bytes of the word |
| Crc32.Tables.MakeBytes | dep/zlib/crc32.c:314-323 | entry i of the byte table is the CRC of byte i |
| Crc32.Tables.MakePowers | dep/zlib/crc32.c:325-329 | entry n of the power table is x^(2^n) |
| Crc32.Tables.X2nmodp | dep/zlib/crc32.c:176-187 | x^(n 2^k) for every n and k, with the table index wrapping at 32 |
| Crc32.Tables.MakeBraid | dep/zlib/crc32.c:531-539 | one braid table is as specified, the others are untouched |
| Crc32.Tables.MakeCrcTable | dep/zlib/crc32.c:310-334 | all three tables are as specified |
| Crc32.Tables.CrcWord | dep/zlib/crc32.c:676-681 | the CRC of one word |
| Crc32.Tables.BraidSums | dep/zlib/crc32.c:799-834 | the lookups for five words give each word's CRC delayed by four words |
| Crc32.Tables.BraidedCrc | dep/zlib/crc32.c:721-858 | any number of blocks, at least one: the register over their bytes |
| Crc32.Tables.ToBoundary | dep/zlib/crc32.c:715-719 | the bytes up to the first word boundary, fewer than eight |
| Crc32.Tables.TailCrc | dep/zlib/crc32.c:991-1006 | the bytes after the last block |
| Crc32.Tables.Crc32Z | dep/zlib/crc32.c:694-1010 | for every buffer, length, start alignment and initial CRC, the bit-at-a-time CRC of section 8 of RFC 1952; 0 for a null buffer; at least one block is always there for the block loop |
| Crc32.Tables.Combine64 | dep/zlib/crc32.c:1021-1026 | for all byte strings, the CRC of the concatenation from the two CRCs and the second length |
| Crc32.Tables.CombineGen64 | dep/zlib/crc32.c:1034-1039 | the operator is x^(8 n) and never zero |
| Crc32.Tables.CombineOp | dep/zlib/crc32.c:1047-1049 | the operator of the second length combines CRCs as crc32_combine64 does for that length |
| Once.Kept | dep/zlib/crc32.c:236-246 | every atomic step of every thread keeps the invariant of who may be where |
| Once.Safe | dep/zlib/crc32.c:230-246 | in every interleaving init() is entered at most once, no thread returns and done is not set before it has been left, and while threads wait exactly one runs init() |
| Once.Advances | dep/zlib/crc32.c:236-246 | every step but a turn of the spin loop brings all threads nearer to returning |
| Once.Live | dep/zlib/crc32.c:236-246 | in every reachable state with a thread that has not returned, some thread can advance: no deadlock |
| Once.Bounded | dep/zlib/crc32.c:236-246 | in every schedule without new calls, the steps that are no turns of the spin loop and what remains at the end are no more than what remained at the start |
| Once.RoundAdvances | dep/zlib/crc32.c:236-246 | a round in which every thread that has not returned may step brings the end nearer as soon as it has a turn for a thread that is not spinning |
| Once.Terminates | dep/zlib/crc32.c:230-246 | from every reachable state, at most five steps a thread are no turns of the spin loop, and after five rounds that give every thread a step all threads have returned and init() has been run |
| SfmtSpec.ShiftsWhole | dep/SFMT/SFMT-common.h:60-114 | the shifts on 64-bit halves shift the 128-bit integer, by any number of bytes from 1 to 7 |
| SfmtSpec.RecWhole | dep/SFMT/SFMT-common.h:141-159 | on 128-bit integers the recurrence is a ^ a << 8 ^ (b >> 11 & mask) ^ c >> 8 ^ (d << 18 & mask), the masks being literals that keep lanes apart |
| SfmtSpec.Recurs | dep/SFMT/SFMT.c:245-263 | word i is made so of the words N, N - POS1, 2 and 1 before it |
| SfmtSpec.CarriesOn | dep/SFMT/SFMT.c:245-263 | any N consecutive words determine the rest of the sequence |
| Sfmt.DoRecursion | dep/SFMT/SFMT-common.h:141-159 | lane by lane, the recurrence of four words, any of which may be the one written |
| Sfmt.GenRandAll | dep/SFMT/SFMT.c:245-263 | in place, the state becomes the next N words |
| Sfmt.FillFromState | dep/SFMT/SFMT.c:99-111 | the first N words of the array, the two last words being followed from the state into the array |
| Sfmt.GenRandArray | dep/SFMT/SFMT.c:95-128 | for every size from N on, the array gets the next size words and the state the last N of them |
| Sfmt.Generator.Refill | dep/SFMT/SFMT.h:143-146 | a refill stays in the same sequence at the same position |
| Sfmt.Generator.GenrandUint32 | dep/SFMT/SFMT.h:139-149 | the next word of the stream |
| Sfmt.Generator.GenrandUint64 | dep/SFMT/SFMT.h:159-183 | the next two words of the stream |
| Sfmt.Generator.FillArray32 | dep/SFMT/SFMT.c:293-300 | the next size words of the stream, the position moving on by size |
| Sfmt.ReadAll | dep/SFMT/SFMT.h:139-183 | any allowed interleaving of single reads, double reads and bulk fills returns one unbroken stretch of the stream |
| SfmtInit.OddFlips | dep/SFMT/SFMT.c:181-184 | the folding loop computes the parity: changing any one bit changes it |
| SfmtInit.Repairs | dep/SFMT/SFMT.c:190-199 | flipping one bit under the parity vector certifies a state that was not |
| SfmtInit.Check | dep/SFMT/SFMT.c:178-188 | the check is the inner product with the parity vector |
| SfmtInit.FindBit | dep/SFMT/SFMT.c:191-198 | the search finds the lowest bit of the vector's word unless it has none |
| SfmtInit.PeriodCertification | dep/SFMT/SFMT.c:170-200 | the state is certified afterwards; one that was certified is unchanged, another changes in exactly the lowest bit of the vector's first part that is not zero |
| SfmtInit.SeededNumber | dep/SFMT/SFMT.c:354-358 | the step on words has the number (1812433253 Xor(w, w / 2^30) + i) mod 2^32 for every w and i |
| SfmtInit.InitGenRand | dep/SFMT/SFMT.c:349-362 | every word is that of the seeding recurrence in integers, w from v being (1812433253 Xor(v, v / 2^30) + i) mod 2^32, bit 0 of the first one flipped exactly if they are not certified, and everything counts as read |
| Adler32.Streams | dep/zlib/adler32.c:61-125 | a checksum may be carried on piece by piece |
| Adler32.Deferred | dep/zlib/adler32.c:98-120 | reducing at the end is reducing after every byte |
| Adler32.RawWithin | dep/zlib/adler32.c:11-12 | the unreduced sums after n bytes stay within the bound of the comment |
| Adler32.WorstReaches | dep/zlib/adler32.c:11-12 | n bytes of 255 reach the bound |
| Adler32.NmaxIsTight | dep/zlib/adler32.c:11-12 | n bytes can be deferred from all valid sums without exceeding 32 bits if and only if n is at most NMAX |
| Adler32.Chop | dep/zlib/adler32.c:25-30 | CHOP keeps the remainder by 65521 |
| Adler32.Mod28 | dep/zlib/adler32.c:31-35 | the remainder if and only if one subtraction is enough, and so for all values below 2^28 |
| Adler32.Mod | dep/zlib/adler32.c:36-40 | the remainder of every 32-bit value |
| Adler32.Mod63 | dep/zlib/adler32.c:41-53 | the remainder of every value below 2^63 |
| Adler32.ChopSigned | dep/zlib/adler32.c:45-50 | the 16-bit steps of MOD63 keep the remainder and bound the result |
| Adler32.Do16 | dep/zlib/adler32.c:14-18 | sixteen unrolled bytes add up as the unreduced sums do, inside 32 bits |
| Adler32.LongSums | dep/zlib/adler32.c:96-121 | blocks of NMAX bytes and the rest give the reduced sums of every byte |
| Adler32.Adler32Z | dep/zlib/adler32.c:61-125 | on all three length paths the checksum of section 2.2 of RFC 1950, for every first argument except with one byte, where it holds if and only if one subtraction is enough; 1 for a null buffer |
| Adler32.OneByteFails | dep/zlib/adler32.c:70-78 | the byte 0 with the first argument 0xfffffff0 does not give the checksum |
| Adler32.RawShift | dep/zlib/adler32.c:142-147 | what a change of the starting sums becomes after n bytes |
| Adler32.Continued | dep/zlib/adler32.c:142-153 | the combination formula gives the sums of a continuation from those of the continuation alone |
| Adler32.Subtractions | dep/zlib/adler32.c:149-152 | two conditional subtractions reduce the first sum below three times, the second below four times BASE |
| Adler32.CombineSums | dep/zlib/adler32.c:141-154 | the formula on the halves of two valid checksums, all sums inside 32 bits |
| Adler32.Combine | dep/zlib/adler32.c:133-155 | for all byte strings the checksum of the concatenation, all sums inside 32 bits; all ones for a negative length |
| GzFile.GzState.Reset | dep/zlib/gzlib.c:69-82 | the state after a reset, reading or writing |
| GzFile.GzState.Rewind | dep/zlib/gzlib.c:318-336 | it succeeds exactly when reading without error and the descriptor can be moved, and then is back at start with no input left over; otherwise nothing changes |
| GzFile.GzState.SeekRaw | dep/zlib/gzlib.c:366-380 | in a copied file the descriptor's offset minus x.have minus x.pos never changes |
| GzFile.GzState.SeekForward | dep/zlib/gzlib.c:393-408 | what the output buffer does not give becomes a request for exactly the rest |
| GzFile.GzState.Seek | dep/zlib/gzlib.c:339-409 | a seek fails exactly for the stated reasons; otherwise it returns the target, which is then told, the descriptor being back at start after a backward seek in a compressed file; a late failure drops the pending request and moves nothing else |
| GzFile.FailedSeekMoves | dep/zlib/gzlib.c:339-409 | a seek to 10 and one by -11, which fails, leave the told position at 0 |
| GzFile.GzState.SkipAhead | dep/zlib/gzread.c:236-262 | len bytes on or to the end of the stream, whichever is first |
| GzFile.GzState.Fetch | dep/zlib/gzread.c:208-233 | more output at the same position or the end of the input; an error only if the input is not sound |
| GzFile.GzState.ReadOn | dep/zlib/gzread.c:283-341 | through output buffer, direct copy and direct decompression, exactly the stream from the position on; no error if the input is sound or the buffer holds enough, and past is set exactly by a short read |
| GzFile.GzState.Read | dep/zlib/gzread.c:268-342 | after any pending seek, exactly the stream at the told position, up to len bytes or its end; no error if the input is sound |
| GzFile.GzState.Play | dep/zlib/gzlib.c:339-432 | every run of seeks and reads with representable targets answers as a single cursor in the stream would; a seek fails exactly for a bad whence or target or an unmovable descriptor, and then the cursor falls back by the pending request and no more; a read fails only if its input is not sound |

## Left out

- CrcPoly.Multmodp: not for a = 0, for which the source's loop does not end; the source asks its callers for a nonzero a.
- Crc32.Tables.Combine64: not for negative lengths, for which the loop of x2nmodp does not end in the source either.
- Crc32.Tables.Crc32Z: N = 5 and W = 8 are fixed, the machine is little-endian, and bits of the C arguments above the 32 of a CRC are not modelled. The big-endian braid, the ARM instructions and the table writers are left out.
- DoubleScalarMult.DoubleScalarMult: it adds elements of a group, not their coordinates; that the coordinate formulas compute the group operation is stated apart, in PointFormulas. The table of multiples of the base point is taken as correct.
- ScalarMultBase.ScalarMultBase: likewise, with the precomputed table taken as the multiples it is meant to hold.
- Decompress.FromBytesVartime: works on field values; the ten-limb fe routines enter through what they compute.
- PointFormulas.GeAdd: likewise, as all of PointFormulas.
- OrderCertificate.PrimeL: that the base point has the order L is not proved.
- Once.Safe: atomic operations are sequentially consistent, as C's defaults are; the version without atomics, documented as unsafe, is left out.
- SfmtSpec.ShiftsWhole: not for shifts by 0 or by more than 7 bytes, undefined in C. The recurrence has the constants of the parameter set 19937; N and POS1 are open.
- Sfmt.Generator.FillArray32: buffers hold whole 128-bit words, as the cast in the source sees them. The 64-bit fill, the SIMD versions and big-endian swaps are left out.
- SfmtInit.InitGenRand: seeding from an array of integers is left out.
- Adler32.Mod: the remainder macros are modelled in their division-free form; the default form is the remainder itself.
- GzFile.GzState.Seek: targets whose computation overflows the 64-bit offset type, undefined in C, are excluded, in GzFile.GzState.Play as a condition on the run.
- GzFile.GzState.Fetch: decompression is an oracle that yields the stream in pieces of any size or fails; a copied file is not changed by others while it is read. After an error of the input only the error is known. Whether the input is sound is an argument of each call.
- gzungetc, gzgets, writing, and opening and closing of gz files.
- The fe64 and assembly paths, signing and verification themselves (they call a hash that is not part of this model), and the numeric contents of the precomputed point tables.
- Floating-point conversions of SFMT output.
