# Sweet B and Ecdsa.kt: a verification project

This project models the elliptic-curve library that the Acurast executor carries in `app/src/main/cpp`, and the
arithmetic helpers of `Ecdsa.kt`, and proves that they compute what they are for.  Run `dafny verify dfyconfig.toml`.

## What is modelled

The layers rest on each other.

1. **Words** (`Words`, `FieldBytes`, `PrimeFields`, `Montgomery`).  `sb_fe.c` on arrays of words: bytes, carries, the
   quasi-reduction that keeps every residue in [1, p] with p standing for zero, Montgomery multiplication, powers,
   inverses and square roots.  The word size and the number of words are parameters.  Each routine is proved against a
   function of `QuasiField`, which says what it means for numbers.
2. **Points** (`Curve`, `CoZ`, `Scalars`, `PointMult`, `PointMultRun`, `MultAdd`, `PointCodec`).  The register programs
   of `sb_sw_lib.c` run on a `Context` whose registers hold values in [1, p].  Ghost integers name the polynomials that
   the registers hold in Montgomery form, so the formulas are proved as identities of integers and then, by congruences,
   against the affine chord-and-tangent law.
3. **Signatures** (`Ecdsa`, `Sign`, `Verify`).  Signing, verification and composite signing, with the exact conditions
   under which a verification accepts.
4. **Hashes** (`Sha256Spec`, `Sha256Constants`, `Sha256Abc`, `Sha256`, `Hmac`, `Hkdf`, `Drbg`, `Rfc6979`).  The mutable
   objects against the one-shot definitions of RFC 6234, RFC 2104, RFC 5869, NIST SP 800-90A Rev. 1 and RFC 6979.  The
   constants of SHA-256 are proved to be the roots that they are said to be, and its definition to give the known digest
   of "abc"; what the other definitions mean is stated in bytes, down to HMAC.
5. **Calls** (`Api`, `Session`, `SessionRun`, `KeyAgreement`).  The resumable start, continue and finish functions on one
   context, and whole sequences of them in any order: every answer is given by the inputs alone, and in numbers.  Two
   parties that exchange public keys obtain the same secret.
6. **Ecdsa.kt** (`EcdsaKt`, `EcdsaKtSign`).  Extended Euclid, square-and-multiply, Jacobian double-and-add, and the
   public keys, signatures and verifications made of them.

`ModArith`, `Primes`, `Bytes` and `Results` hold what these need: congruences, Fermat's little theorem, values of bytes,
error flags.

## Assumptions

- p and n are primes above 3, n < p < 2 n, and n has exactly `bits` bits, an even number of them, without being a power
  of two; the radix is 2^bits and at most 2 p and 2 n.  Both curves of the library are of this kind.
- `Multiples(cv, pt)`: the map from an integer k to k times a point is a homomorphism for the chord-and-tangent law that
  vanishes exactly on the multiples of n.  It says that the law is associative and that the point has order n, and is
  not proved.  `SmallCurve.AssumptionsHold` gives a curve with 11 points for which all of this holds.
- Random numbers, Z values and nonces are parameters.

## What the code does where its documentation says something else

- `sb_sw_lib.c:453-454` names the registers the wrong way around: without a swap, (x1, y1) holds the multiple of the
  prefix, and that is what `PointMult.HoldsStep` states.
- `sb_sw_lib.c:1071-1073` means to report a nonce whose point has x = 0.  At that place x = 0 is represented by p, which
  reduces to p - n and not to n.  `Sign.FailsOnR` gives the exact condition of the report; `Sign.SignatureOutcome` shows
  that what is then output is not a signature, and that this is the only case.
- Signing accepts a digest that is zero modulo n, but verification rejects it (`sb_sw_lib.c:1127-1128`);
  `Sign.SignThenVerify` carries the condition.
- `sb_sw_compute_public_key_finish` does not fully reduce the x coordinate, unlike `sb_sw_point_multiply_finish`: for
  x = 0 it outputs p, which validation rejects.  `PointCodec.ComputePublicKey` states it as an equivalence.
- `sb_hmac_drbg_reseed_required` adds in `size_t`: `Drbg.BudgetExact` holds up to that overflow, and
  `Drbg.BudgetOverflow` is an input on which the check passes although the requests cannot all succeed.
- Without a random source, candidates for the nonce are read in the byte order of the caller's data
  (`sb_sw_lib.c:2303`).  RFC 6979 reads them in big-endian order: `Rfc6979.ByteOrderMatters` says when the secrets agree.
  The message that seeds the generator is quasi-reduced: `Rfc6979.SeedsAgree` says when that is what the standard
  demands.
- `sb_sw_lib.c:746-762` lists the public keys H, -H, G, -G, G + H and -G - H as the exceptional ones.  Preparing the table
  of the dual multiplication is exceptional exactly for H, -H, G - H and -G - H (`MultAdd.TableSafeIff`): G - H is not in
  that list.  For these four the loop runs with (0, 0) in place of P + H and P + G + H, and `Verify.VerifySignature` says
  what it decides then.
- `fastAdd` of `Ecdsa.kt` takes the encoding of infinity for a finite point: `EcdsaKt.AddsExactly` shows that the sum is
  right exactly if neither operand is at infinity.  `fastMultiply` never gets there, but `verify` does for a digest that
  is zero modulo n: `EcdsaKtSign.Verify` says what it compares r with then.
- `sign` of `Ecdsa.kt` does not reduce r modulo n, and `verify` compares it unreduced: `EcdsaKtSign.SignThenVerify` says
  that such a signature is accepted, and that it is one of FIPS 186-5 exactly if r is below n.  The private keys 0 and n
  are not refused and give the public key (0, 0): `EcdsaKtSign.PublicKey`.

## Model

| member | source | states |
|---|---|---|
| Words.Add | app/src/main/cpp/sb_fe.c:189-204 | the words and the carry returned are the sum, also when the destination is an operand |
| Words.SubBorrow | app/src/main/cpp/sb_fe.c:209-225 | the words and the borrow returned are the difference less the incoming borrow |
| Words.Lt | app/src/main/cpp/sb_fe.c:227-241 | one exactly if the left number is smaller |
| Words.Equal | app/src/main/cpp/sb_fe.c:133-153 | one exactly if the numbers are equal |
| Words.CondSubP | app/src/main/cpp/sb_fe.c:244-261 | subtracts p modulo the radix if the flag is set, and otherwise nothing |
| Words.CondAddP1 | app/src/main/cpp/sb_fe.c:266-281 | adds one, and p too if the flag is set, modulo the radix |
| Words.RshiftW | app/src/main/cpp/sb_fe.c:409-424 | divides the number by a power of two below the word base |
| Words.TestBit | app/src/main/cpp/sb_fe.c:158-184 | the bit of the number at the position, found by looking at every word |
| FieldBytes.FromBytes | app/src/main/cpp/sb_fe.c:46-73 | the words hold the number that the bytes stand for in either byte order, for every word size |
| FieldBytes.ToBytes | app/src/main/cpp/sb_fe.c:75-98 | the bytes are those of the number that the words hold, in either byte order |
| FieldBytes.BytesRoundTrip | app/src/main/cpp/sb_fe.c:46-98 | numbers survive conversion to bytes and back, and byte strings survive conversion to numbers and back |
| FieldBytes.NumberDigits | app/src/main/cpp/sb_fe.c:46-98 | bytes are digits to the base 256, with the last one lowest in big-endian order and the first one in little-endian order |
| PrimeFields.PrimeField.Qr | app/src/main/cpp/sb_fe.c:309-321 | a number in (0, 2 p], with a carry bit, becomes its representative in [1, p] |
| PrimeFields.PrimeField.ModReduce | app/src/main/cpp/sb_fe.c:325-341 | every number of the field width becomes its representative in [1, p] |
| PrimeFields.PrimeField.ModReduceFull | app/src/main/cpp/sb_fe.c:346-357 | zero is represented by zero again |
| PrimeFields.PrimeField.ModSub | app/src/main/cpp/sb_fe.c:361-375 | the representative of the difference |
| PrimeFields.PrimeField.ModAdd | app/src/main/cpp/sb_fe.c:388-396 | the representative of the sum, by two subtractions |
| PrimeFields.PrimeField.ModHalve | app/src/main/cpp/sb_fe.c:426-448 | the representative of the half |
| QuasiField.HalveDoubles | app/src/main/cpp/sb_fe.c:426-448 | doubling the half gives the value back |
| QuasiField.SumsMean | app/src/main/cpp/sb_fe.c:325-396 | sums, differences and reductions in numbers: in [1, p], and congruent |
| QuasiField.NegationMeans | app/src/main/cpp/sb_fe.c:379-404 | the double and the negation in numbers |
| QuasiField.HalvesMean | app/src/main/cpp/sb_fe.c:426-448 | twice the half is congruent to the value |
| Montgomery.MontRound | app/src/main/cpp/sb_fe.c:497-556 | one outer iteration divides the accumulated total by the word base exactly; the high bit stays a bit |
| Montgomery.RoundBound | app/src/main/cpp/sb_fe.c:485-566 | the total stays below 2 p after every iteration |
| Montgomery.MontMult | app/src/main/cpp/sb_fe.c:485-566 | for operands in [1, p] the result in [1, p], times the radix, is congruent to their product, for every word size |
| QuasiField.ProductsMean | app/src/main/cpp/sb_fe.c:485-566 | the same of the function that the Montgomery multiplication computes |
| QuasiField.ConversionsMean | app/src/main/cpp/sb_fe.c:578-602 | conversion multiplies by the radix, and reduction divides by it |
| Montgomery.ModExptR | app/src/main/cpp/sb_fe.c:606-632 | the power in the Montgomery domain by the exponent without its low bits |
| Montgomery.ModInvR | app/src/main/cpp/sb_fe.c:636-642 | two powers with f1 f2 = p - 2 make the inverse in the Montgomery domain |
| QuasiField.PowersMean | app/src/main/cpp/sb_fe.c:606-642 | powers and inverses in the Montgomery domain in numbers: the inverse times the element is the square of the radix, and zero stays zero |
| QuasiField.MontInverted | app/src/main/cpp/sb_fe.c:634-642 | that inverse multiplies nonzero elements to one and leaves zero fixed |
| Montgomery.ModSqrt | app/src/main/cpp/sb_fe.c:645-676 | true exactly for squares modulo p = 3 mod 4, and then the output is a root |
| Montgomery.RootPower | app/src/main/cpp/sb_fe.c:645-661 | the power (p + 1) / 4 of a number is a root of it exactly if it is a square |
| CoZ.InitialDouble | app/src/main/cpp/sb_sw_lib.c:147-181 | from P, the polynomials of 2 P and of P rescaled to Z = 2 y |
| CoZ.DoubleHolds | app/src/main/cpp/sb_sw_lib.c:147-181 | those of 2 P are the Jacobian coordinates of the tangent point |
| CoZ.CoZAddUpdateZup | app/src/main/cpp/sb_sw_lib.c:183-210 | co-Z addition with update, as polynomials of the register contents |
| CoZ.CoZConjAdd | app/src/main/cpp/sb_sw_lib.c:224-247 | conjugate addition: the sum and the difference |
| CoZ.LineReduces | app/src/main/cpp/sb_sw_lib.c:183-247 | the sum polynomials are the coordinates of the third point of the line, at the Z multiplied by x2 - x1 |
| CoZ.ScaledHolds | app/src/main/cpp/sb_sw_lib.c:183-210 | the updated operand is the same point at the new Z |
| Scalars.RegularTopBit | app/src/main/cpp/sb_sw_lib.c:249-270 | the regularized scalar is congruent to the scalar and has its top bit just above the order |
| Scalars.LadderSafe | app/src/main/cpp/sb_sw_lib.c:376-444 | for every scalar from 2 on, no step of the ladder meets infinity or equal or opposite points |
| Scalars.StepSafeHigh | app/src/main/cpp/sb_sw_lib.c:376-444 | the same for the scalar 1 down to bit 2 |
| Scalars.LadderOfOne | app/src/main/cpp/sb_sw_lib.c:324-330 | the scalar 1 becomes 2 n + 1, whose step for bit 1 adds opposite points |
| PointMult.StepOfPair | app/src/main/cpp/sb_sw_lib.c:448-502 | a safe step takes the multiples j and j + 1 to 2 j + b and 2 j + b + 1, at a common nonzero Z |
| PointMult.StepOfOpposite | app/src/main/cpp/sb_sw_lib.c:324-330 | adding opposite points leaves (0, 0) and a pair with y^2 = x^3 |
| PointMult.ConjOfNothing | app/src/main/cpp/sb_sw_lib.c:324-330 | conjugate addition of such a pair is all zeros |
| PointMult.LadderIteration | app/src/main/cpp/sb_sw_lib.c:481-502 | one iteration with its swap flag keeps the position of the ladder |
| PointMult.RecoveredZ | app/src/main/cpp/sb_sw_lib.c:513-575 | the number computed from P and the registers is the inverse of a Z that was never stored |
| PointMult.LastStep | app/src/main/cpp/sb_sw_lib.c:513-575 | for both values of the last bit it is the inverse of the Z that k P ends with |
| PointMult.LastPlan | app/src/main/cpp/sb_sw_lib.c:513-617 | the output is k P, from the multiples for a safe scalar and from nothing for the scalar 1 |
| PointMult.RestoreScalar | app/src/main/cpp/sb_sw_lib.c:619-634 | regularization and negation of the scalar are undone |
| PointMult.PointMultContinue | app/src/main/cpp/sb_sw_lib.c:371-638 | a call advances at most 16 steps, or completes the multiplication, or changes nothing |
| PointMultRun.ConstantIsDouble | app/src/main/cpp/sb_sw_lib.c:275-309 | for a point (0, y) the constant, or its negation for odd y, is twice the point |
| PointMultRun.SubstituteZeroPoint | app/src/main/cpp/sb_sw_lib.c:275-309 | a point with x = 0 is doubled and the scalar halved, which is the same multiple |
| PointMultRun.PrepareScalar | app/src/main/cpp/sb_sw_lib.c:311-335 | scalars with the top bit set are negated, one is noted, and the scalar is regularized |
| PointMultRun.PointMultStart | app/src/main/cpp/sb_sw_lib.c:271-369 | the ladder is entered with P and 2 P at a nonzero Z |
| PointMultRun.PointMultiply | app/src/main/cpp/sb_sw_lib.c:271-638 | start and 1 + ceil((bits - 1) / 16) continuations give k P for every point of order n and every k in [1, n - 1]; the scalar is left as it was unless x = 0 |
| MultAdd.Select | app/src/main/cpp/sb_sw_lib.c:677-707 | the swaps select one of H, G + H, P + H, P + G + H by two bits, at the current Z |
| MultAdd.ZUpdate | app/src/main/cpp/sb_sw_lib.c:648-658 | addition with the Z register following |
| MultAdd.AccumulateBit | app/src/main/cpp/sb_sw_lib.c:709-744 | one bit doubles the scalar that is held and adds the selected one |
| MultAdd.AccumulatedAll | app/src/main/cpp/sb_sw_lib.c:714-722 | the copies of H amount to G and make good the one subtracted from the scalar of G |
| MultAdd.SumOfSameX | app/src/main/cpp/sb_sw_lib.c:746-762 | an exceptional addition leaves Z = 0 and a pair with y^2 = x^3 |
| MultAdd.SumOfDead | app/src/main/cpp/sb_sw_lib.c:746-762 | no later addition recovers from it |
| MultAdd.NextOperands | app/src/main/cpp/sb_sw_lib.c:648-658 | an addition of affine points, on the curve or not, is along their chord; without a chord it is nothing |
| MultAdd.ApartIff | app/src/main/cpp/sb_sw_lib.c:746-762 | finite multiples have no chord exactly if they are equal or opposite |
| MultAdd.TableSafeIff | app/src/main/cpp/sb_sw_lib.c:746-762 | preparing the table is exceptional exactly for the public keys H, -H, G - H and -G - H |
| MultAdd.StoreTable | app/src/main/cpp/sb_sw_lib.c:804-818 | both points made affine with one inversion, or both (0, 0) after an exceptional addition |
| MultAdd.PrepareMultAdd | app/src/main/cpp/sb_sw_lib.c:772-844 | for every affine point P: the table, the accumulator at 2 H with the random Z, and one subtracted from kg |
| MultAdd.LoopBit | app/src/main/cpp/sb_sw_lib.c:867-884 | R := R + S at the top bit and 2 R + S below; the index wraps around after bit 0 |
| MultAdd.LoopSlice | app/src/main/cpp/sb_sw_lib.c:867-884 | at most 16 bits, whether or not an addition is exceptional |
| MultAdd.RunIsMultiple | app/src/main/cpp/sb_sw_lib.c:846-901 | what the loop holds after each bit is the multiple that the prefixes of both scalars determine, until an addition is exceptional |
| Ecdsa.RecoversNonce | app/src/main/cpp/sb_sw_lib.c:1064-1092 | the scalars of a verification combine to the nonce of the signature |
| Ecdsa.CandidateX | app/src/main/cpp/sb_sw_lib.c:1156-1181 | x mod n = r exactly if x is r or, where r < p - n, r + n |
| Ecdsa.SignatureVerifies | app/src/main/cpp/sb_sw_lib.c:1064-1092 | a signature verifies exactly if its r is the x coordinate of the nonce's point modulo n |
| Ecdsa.SignedMeans | app/src/main/cpp/sb_sw_lib.c:1074-1092 | s in numbers: s k = msg + r d modulo n, with n for zero |
| Ecdsa.VerifiesMeans | app/src/main/cpp/sb_sw_lib.c:1119-1187 | validity in numbers: for the u1 and u2 with u1 s = msg and u2 s = r modulo n, the x coordinate of u1 G + u2 Q is r modulo n |
| Verify.ScalarValidate | app/src/main/cpp/sb_sw_lib.c:1004-1016 | valid exactly in [1, n - 1]; quasi-reduced in any case |
| Verify.InvSStage | app/src/main/cpp/sb_sw_lib.c:1119-1142 | validation of r, s and the message, and both scalars |
| Verify.Accepts | app/src/main/cpp/sb_sw_lib.c:1156-1187 | the comparisons of X with r Z^2 and (r + n) Z^2 accept exactly if x mod n = r, for Z != 0 |
| Verify.Rejects | app/src/main/cpp/sb_sw_lib.c:1150-1187 | with Z = 0, a comparison holds only for the all-zero point, which is rejected |
| Verify.Decision | app/src/main/cpp/sb_sw_lib.c:1149-1192 | the final stage accepts exactly if no addition was exceptional and x mod n = r |
| Verify.VerifyContinue | app/src/main/cpp/sb_sw_lib.c:1113-1197 | one stage or 16 bits per call; the number of calls left goes down by one; nothing changes when done |
| Verify.AcceptedIff | app/src/main/cpp/sb_sw_lib.c:1102-1192 | for keys with a safe table, what the stages decide is validity in the sense of FIPS 186-5, a nonzero message, and no exceptional addition |
| Verify.VerifySignature | app/src/main/cpp/sb_sw_lib.c:1102-1197 | for every key, r, s and message the result is what the loop decides in affine points; for all but four keys it is one exactly for a valid signature of a nonzero message without exceptional addition; after 3 + ceil(bits / 16) calls |
| Sign.SignInv | app/src/main/cpp/sb_sw_lib.c:1061-1092 | r, s = k^-1 (z + r d), and failure exactly if one is zero modulo n as represented |
| Sign.SignContinue | app/src/main/cpp/sb_sw_lib.c:1053-1100 | the multiplication, then the signature or the exact failure, then nothing |
| Sign.SignDigest | app/src/main/cpp/sb_sw_lib.c:2405-2434 | a whole signing run, with its number of calls |
| Sign.FailsOnR | app/src/main/cpp/sb_sw_lib.c:1064-1073 | r is reported exactly for a nonzero x that is zero modulo n; for x = 0 it is p - n |
| Sign.SigningMeans | app/src/main/cpp/sb_sw_lib.c:1061-1092 | r, s and the failures of signing in numbers |
| Sign.SignatureOutcome | app/src/main/cpp/sb_sw_lib.c:1064-1092 | a signature that is not reported verifies exactly if x != 0 |
| Sign.SignThenVerify | app/src/main/cpp/sb_sw_lib.c:1053-1197 | signing on one context and verifying on another: the exact condition of acceptance, for every key |
| Sign.Unblind | app/src/main/cpp/sb_sw_lib.c:1425-1446 | the inverse does not depend on the blinding factor |
| Sign.InvertFieldElement | app/src/main/cpp/sb_sw_lib.c:1425-1446 | the inverse of a scalar in the Montgomery domain |
| Sign.InvertPrivateKey | app/src/main/cpp/sb_sw_lib.c:1504-1530 | the output multiplies the private key to one |
| Sign.WrapDigest | app/src/main/cpp/sb_sw_lib.c:2525-2554 | the digest divided by the private key, or the error |
| Sign.UnwrapSignature | app/src/main/cpp/sb_sw_lib.c:2556-2610 | s multiplied by the private key, or the combination of errors |
| Sign.CompositeSigns | app/src/main/cpp/sb_sw_lib.c:2540-2607 | wrapping, signing and unwrapping as numbers: the s of the product of the keys, and a failure exactly together |
| Sign.CompositeRun | app/src/main/cpp/sb_sw_lib.c:2525-2610 | runs of wrapping, signing and unwrapping give what a run of signing with the product of the keys gives, failures included |
| Sign.KFromBuf | app/src/main/cpp/sb_sw_lib.c:1292-1332 | with the increment, one more than the first of four candidates for which that is below n; without it, the first one in [1, n - 1]; a failure exactly if there is none |
| PointCodec.CurveY2 | app/src/main/cpp/sb_sw_lib.c:909-920 | x^3 + a x + b |
| PointCodec.PointValidate | app/src/main/cpp/sb_sw_lib.c:936-970 | accepts exactly the points of the curve with x < p and 0 < y < p |
| PointCodec.PointDecompress | app/src/main/cpp/sb_sw_lib.c:972-1002 | accepts exactly the x < p with a square as y^2; the root has the given low bit |
| PointCodec.Compress | app/src/main/cpp/sb_sw_lib.c:1725-1763 | x and the low bit of y of a valid point |
| PointCodec.Decompress | app/src/main/cpp/sb_sw_lib.c:1765-1801 | x fully reduced again, and the root |
| PointCodec.CodecInverse | app/src/main/cpp/sb_sw_lib.c:1725-1801 | a point is valid with that sign exactly if decompression can give it |
| PointCodec.CompressDecompress | app/src/main/cpp/sb_sw_lib.c:1725-1801 | every valid point comes back, x = 0 included |
| PointCodec.MultiplyPoint | app/src/main/cpp/sb_sw_lib.c:1968-2056 | the output of a multiplication is the multiple and a valid point |
| PointCodec.ComputePublicKey | app/src/main/cpp/sb_sw_lib.c:1532-1644 | the output is a valid public key exactly if its x is not zero |
| PointCodec.SharedSecret | app/src/main/cpp/sb_sw_lib.c:1864-1943 | the x coordinate of a b G, the same for both parties |
| Sha256.RotatedRound | app/src/main/cpp/sb_sha256.c:158-181 | updating two words in rotating places is the round that moves all eight |
| Sha256.WindowStep | app/src/main/cpp/sb_sha256.c:136-156 | sixteen rotating words hold what the schedule needs |
| Sha256.FastForms | app/src/main/cpp/sb_sha256.c:117-121 | the rewritten CH and MAJ are those of section 5.1 of RFC 6234 |
| Sha256.State.ProcessBlock | app/src/main/cpp/sb_sha256.c:136-188 | the compression of section 6.2 of RFC 6234, for every block and state |
| Sha256.Fills | app/src/main/cpp/sb_sha256.c:202-233 | bytes that fill the block that has been started process it |
| Sha256.State.Update | app/src/main/cpp/sb_sha256.c:202-233 | the object stands for everything fed so far, however it is split, and whatever its length |
| Sha256.Padding | app/src/main/cpp/sb_sha256.c:237-262 | the padding of section 4.1 of RFC 6234, with and without another block |
| Sha256.State.FinishInternal | app/src/main/cpp/sb_sha256.c:237-262 | the hash of the padded message, with the length as the 32-bit count gives it |
| Sha256.State.Finish | app/src/main/cpp/sb_sha256.c:275-286 | the digest is output and the state cleared |
| Sha256.State.Message | app/src/main/cpp/sb_sha256.c:288-296 | one call hashes a whole message: SHA-256 below 2^32 bytes |
| Sha256.DigestIsSha256 | app/src/main/cpp/include/sb_sha256.h:74-80 | for less than 2^32 bytes it is SHA-256; from there on the encoded length is wrong |
| Sha256Constants.FirstPrimes | app/src/main/cpp/sb_sha256.c:55-79 | the list used for the constants is that of the first 64 primes |
| Sha256Constants.ConstantsAreCubeRoots | app/src/main/cpp/sb_sha256.c:62-79 | every word of K is the first 32 bits of the fractional part of the cube root of the prime of its number |
| Sha256Constants.InitIsSquareRoots | app/src/main/cpp/sb_sha256.c:55-60 | every word of the initial state is the first 32 bits of the fractional part of a square root |
| Sha256Spec.PaddedMeans | app/src/main/cpp/sb_sha256.c:237-262 | the padded message byte by byte: 0x80, zeros, the length in bits, whole blocks and no more than needed |
| Sha256Spec.BlocksMeans | app/src/main/cpp/sb_sha256.c:202-233 | blocks are compressed one after the other |
| Sha256Abc.DigestOfAbc | app/src/main/cpp/sb_sha256.c:302-336 | the digest of "abc" is the known one |
| Hmac.PadTwice | app/src/main/cpp/sb_hmac_sha256.c:50-57 | padding twice restores the key |
| Hmac.HmacIsStandard | app/src/main/cpp/sb_hmac_sha256.c:50-117 | for lengths that the 32-bit count holds, the MAC is that of section 2 of RFC 2104 with SHA-256 of RFC 6234 |
| Hmac.HmacBytes | app/src/main/cpp/sb_hmac_sha256.c:50-117 | the MAC byte by byte: a key of 64 bytes, padded with 0x36 and 0x5C, and two hashes |
| Hmac.HmacState.Init | app/src/main/cpp/sb_hmac_sha256.c:59-78 | long keys are hashed, short ones filled up |
| Hmac.HmacState.Finish | app/src/main/cpp/sb_hmac_sha256.c:99-117 | the MAC of section 2 of RFC 2104, with the key as before |
| Hmac.HmacState.FinishToKey | app/src/main/cpp/sb_hmac_sha256.c:122-150 | the MAC becomes the key in place; the unused half stays zero |
| Hmac.HmacState.FinishThenInit | app/src/main/cpp/sb_hmac_sha256.c:119-150 | finishing and starting anew leads to the same state |
| Hkdf.HkdfState.Extract | app/src/main/cpp/sb_hkdf.c:47-94 | the key is the MAC of the input under the salt, section 2.2 of RFC 5869 |
| Hkdf.ExtractionMeans | app/src/main/cpp/sb_hkdf.c:47-94 | that is so for an absent salt too, which is replaced by zeros |
| Hkdf.HkdfState.KdfInit | app/src/main/cpp/sb_hkdf.c:96-106 | the input becomes the key without extraction, and the state is ready to expand |
| Hkdf.HkdfState.Expand | app/src/main/cpp/sb_hkdf.c:108-148 | exactly the prefix of T(1), T(2), ... of section 2.3 of RFC 5869; the state is unchanged |
| Hkdf.ExpansionPrefix | app/src/main/cpp/sb_hkdf.c:108-148 | longer outputs extend shorter ones |
| Hkdf.ExpansionMeans | app/src/main/cpp/sb_hkdf.c:108-148 | every 32 bytes of the output, or what there is of the last ones, are the MAC of those before, the info and the number of the block in a byte |
| Drbg.DrbgState.UpdateStep | app/src/main/cpp/sb_hmac_drbg.c:54-74 | half of the update function of section 10.1.2.2 of NIST SP 800-90A Rev. 1 |
| Drbg.DrbgState.UpdateVec | app/src/main/cpp/sb_hmac_drbg.c:76-87 | the update function, with the second half for provided data only |
| Drbg.DrbgState.Init | app/src/main/cpp/sb_hmac_drbg.c:148-199 | instantiation, or the combination of errors and an unseeded state |
| Drbg.DrbgState.Reseed | app/src/main/cpp/sb_hmac_drbg.c:89-127 | reseeding as `Drbg.ReseedMeans` has it, or the combination of errors and no change |
| Drbg.DrbgState.Generate | app/src/main/cpp/sb_hmac_drbg.c:201-285 | the bytes and the state of section 10.1.2.5 of NIST SP 800-90A Rev. 1, or the errors and no change |
| Drbg.DrbgState.Run | app/src/main/cpp/sb_hmac_drbg.c:76-323 | every reply in every sequence of operations is the one that the standard gives |
| Drbg.InitMeans | app/src/main/cpp/sb_hmac_drbg.c:148-199 | instantiation as four MACs, from a key of zero bytes and a V of ones, of the entropy, the nonce and the personalization string |
| Drbg.InitRefusals | app/src/main/cpp/sb_hmac_drbg.c:169-187 | which instantiations are refused, condition by condition |
| Drbg.ReseedMeans | app/src/main/cpp/sb_hmac_drbg.c:89-127 | reseeding as four MACs of the entropy and the additional input |
| Drbg.ReseedRefusals | app/src/main/cpp/sb_hmac_drbg.c:89-118 | which reseeds are refused, condition by condition |
| Drbg.GenerateMeans | app/src/main/cpp/sb_hmac_drbg.c:201-285 | generation as MACs: the update with additional input, every block of the output, the update afterwards |
| Drbg.GenerateRefusals | app/src/main/cpp/sb_hmac_drbg.c:201-252 | which requests are refused, condition by condition |
| Drbg.ConcatMeans | app/src/main/cpp/sb_hmac_drbg.c:54-74 | chunks of additional input are strung together |
| Drbg.RunMeans | app/src/main/cpp/sb_hmac_drbg.c:76-323 | a sequence is performed one operation after the other |
| Drbg.CounterBounded | app/src/main/cpp/sb_hmac_drbg.c:242-276 | over every sequence the counter exceeds the interval by at most one |
| Drbg.DrbgState.ReseedRequired | app/src/main/cpp/sb_hmac_drbg.c:129-146 | passes exactly if any that many well-formed requests made next all succeed, or the sum leaves size_t; each flag exactly |
| Drbg.SuccessfulRun | app/src/main/cpp/sb_hmac_drbg.c:129-146 | well-formed requests all succeed exactly within the interval |
| Drbg.SucceedMeans | app/src/main/cpp/sb_hmac_drbg.c:129-146 | that requests all succeed means that all their replies are without errors |
| Drbg.BudgetExact | app/src/main/cpp/sb_hmac_drbg.c:129-146 | the check passes exactly if the next requests all succeed or the sum overflows |
| Drbg.BudgetOverflow | app/src/main/cpp/sb_hmac_drbg.c:139-143 | an input on which the check passes by overflow, with requests that do not all succeed |
| Rfc6979.SeededAlike | app/src/main/cpp/sb_sw_lib.c:2259-2285 | the generator is seeded as steps b to g of section 3.2 of RFC 6979 demand |
| Rfc6979.GeneratesCandidate | app/src/main/cpp/sb_sw_lib.c:2287-2299 | a request outputs a candidate and updates the state as after a rejection |
| Rfc6979.Candidates | app/src/main/cpp/sb_sw_lib.c:2259-2299 | the four chunks are the first four candidates of the standard |
| Rfc6979.DeterministicSecret | app/src/main/cpp/sb_sw_lib.c:2253-2307 | the secret is the first candidate in range, or there is a failure and none of the four is; for big-endian data and a message nonzero modulo n it is the one that `Rfc6979.StandardSecretMeans` describes |
| Rfc6979.CandidatesMean | app/src/main/cpp/sb_sw_lib.c:2259-2299 | the candidates, and K and V before each, are those of a chain of MACs from 32 bytes 0x00 and 32 bytes 0x01 |
| Rfc6979.SecretMeans | app/src/main/cpp/sb_sw_lib.c:2287-2307 | the secret is the first candidate of that chain in [1, n - 1], in either byte order |
| Rfc6979.StandardSecretMeans | app/src/main/cpp/sb_sw_lib.c:2253-2307 | the standard's secret from the bytes of the key and of the reduced message |
| Rfc6979.SecretUnique | app/src/main/cpp/sb_sw_lib.c:1292-1332 | there is at most one such secret |
| Rfc6979.SeedsAgree | app/src/main/cpp/sb_sw_lib.c:2262-2270 | the seed is the one of the standard exactly if the digest is not zero modulo n |
| Rfc6979.ByteOrderMatters | app/src/main/cpp/sb_sw_lib.c:1292-1322 | the secrets of the two byte orders agree exactly if the candidates chosen are each other's reverse |
| Api.FinishableIff | app/src/main/cpp/sb_sw_lib.c:1587-1644 | in the protocol, an operation is complete exactly after a start and enough continuations of the same operation |
| Api.Nullify | app/src/main/cpp/sb_error.h:49-51 | every field is zero |
| Session.Session.Continue | app/src/main/cpp/sb_sw_lib.c:2357-2377 | the five continue functions follow the protocol; the errors exactly, among them when the last call of signing fails; errors clear the context; calls after the last change nothing |
| Session.CallsMean | app/src/main/cpp/sb_sw_lib.c:446-512 | how many calls an operation takes: one for each 16 bits, and up to three more; 17, 18 and 19 for 256 bits |
| Session.Session.Complete | app/src/main/cpp/sb_sw_lib.c:2405-2434 | continuing until done takes the calls that were left, keeps the aim of the operation, and fails exactly if the signature does |
| Session.Session.StartPublicKey | app/src/main/cpp/sb_sw_lib.c:1532-1585 | the combination of errors with a cleared context, or the operation in progress |
| Session.Session.StartWithPoint | app/src/main/cpp/sb_sw_lib.c:1803-1862 | the same for shared secrets and multiplication, with the point validated |
| Session.Session.StartSigning | app/src/main/cpp/sb_sw_lib.c:2194-2332 | the same for signing |
| Session.Session.StartVerification | app/src/main/cpp/sb_sw_lib.c:2612-2664 | the same for verification, for every public key |
| Session.Session.FinishMultiplication | app/src/main/cpp/sb_sw_lib.c:2019-2056 | the x coordinate of the multiple for a shared secret, both for a product, and p in place of x = 0 for a public key, or the error of a wrong or unfinished operation; the context is cleared |
| Session.Session.FinishSigning | app/src/main/cpp/sb_sw_lib.c:2378-2402 | the signature, with both components nonzero |
| Session.Session.FinishVerification | app/src/main/cpp/sb_sw_lib.c:2710-2727 | success exactly for a signature that is to be accepted |
| SessionRun.SaveState | app/src/main/cpp/include/sb_sw_context.h:321-329 | saving the state over the temporaries, with whatever they then hold, disturbs no operation in progress |
| SessionRun.Serve | app/src/main/cpp/sb_sw_lib.c:1532-2727 | every call, on any context, is answered from the phase and the inputs of the start alone |
| SessionRun.Run | app/src/main/cpp/sb_sw_lib.c:1532-2727 | every answer in every sequence of calls on a context, whatever the temporaries hold between them |
| SessionRun.CollectsIff | app/src/main/cpp/sb_sw_lib.c:1587-1644 | over any sequence, a finish succeeds exactly after a valid start and enough continuations of the same operation, and its result is that of the inputs of the start |
| SessionRun.UnderwayIff | app/src/main/cpp/sb_sw_lib.c:1587-1644 | the protocol has an operation in progress exactly if the requests do |
| SessionRun.StartAnswer | app/src/main/cpp/sb_sw_lib.c:1532-1862 | the errors of every start, condition by condition, whatever was before it |
| SessionRun.NothingUnderway | app/src/main/cpp/sb_sw_lib.c:1587-1644 | without an operation of its kind underway, a continuation or a finish is an error |
| SessionRun.ContinueAnswer | app/src/main/cpp/sb_sw_lib.c:2357-2377 | which continuation is done, and which one fails |
| SessionRun.CollectAnswer | app/src/main/cpp/sb_sw_lib.c:2378-2402 | when a finish is too early, and what it gives otherwise |
| SessionRun.MultipleCollected | app/src/main/cpp/sb_sw_lib.c:1608-2056 | the answers of the three multiplications in terms of the coordinates of the multiple |
| SessionRun.FailureMeans | app/src/main/cpp/sb_sw_lib.c:1061-1092 | which signatures fail, in numbers |
| SessionRun.SignatureCollected | app/src/main/cpp/sb_sw_lib.c:2378-2402 | the signature that is collected, in numbers |
| SessionRun.EnoughCalls | app/src/main/cpp/sb_sw_lib.c:446-512 | how many continuations that takes: 17, 18 and 19 for 256 bits |
| SessionRun.AcceptedMeans | app/src/main/cpp/sb_sw_lib.c:2691-2727 | what the result of a verification in a sequence says about the signature |
| KeyAgreement.ComputePublicKey | app/src/main/cpp/sb_sw_lib.c:1645-1676 | all calls together: the multiple of the generator, with p in place of x = 0 |
| KeyAgreement.SharedSecret | app/src/main/cpp/sb_sw_lib.c:1945-1973 | all calls together: the x coordinate of the multiple of a valid point |
| KeyAgreement.MultiplyPoint | app/src/main/cpp/sb_sw_lib.c:2059-2085 | all calls together: the multiple of a valid point |
| KeyAgreement.KeyMeans | app/src/main/cpp/sb_sw_lib.c:1608-1644 | a public key is accepted exactly if its x is not zero |
| KeyAgreement.Agree | app/src/main/cpp/sb_sw_lib.c:1532-1973 | two parties that exchange public keys both obtain the x coordinate of a b G, unless a key is refused |
| EcdsaKt.Inverse | app/src/main/java/com/acurast/attested/executor/crypto/curves/Ecdsa.kt:254-270 | terminates; zero for zero; otherwise an inverse exactly if there is one |
| EcdsaKt.QuickPowIsPower | app/src/main/java/com/acurast/attested/executor/crypto/curves/Ecdsa.kt:190-195 | the power modulo the modulus |
| EcdsaKt.DoubleIsTangent | app/src/main/java/com/acurast/attested/executor/crypto/curves/Ecdsa.kt:219-227 | doubling is the tangent point |
| EcdsaKt.AddsMultiples | app/src/main/java/com/acurast/attested/executor/crypto/curves/Ecdsa.kt:229-252 | addition of finite multiples, equal and opposite ones included |
| EcdsaKt.AddsExactly | app/src/main/java/com/acurast/attested/executor/crypto/curves/Ecdsa.kt:229-252 | for all multiples the sum is right exactly if neither operand is at infinity |
| EcdsaKt.HalfStep | app/src/main/java/com/acurast/attested/executor/crypto/curves/Ecdsa.kt:209-216 | the addition of the recursion never meets equal or opposite points |
| EcdsaKt.MultipliesPoint | app/src/main/java/com/acurast/attested/executor/crypto/curves/Ecdsa.kt:197-217 | n times the point, for every integer n |
| EcdsaKtSign.AffineOf | app/src/main/java/com/acurast/attested/executor/crypto/curves/Ecdsa.kt:136-139 | the affine coordinates of a point that is represented, (0, 0) for infinity |
| EcdsaKtSign.PublicKey | app/src/main/java/com/acurast/attested/executor/crypto/curves/Ecdsa.kt:135-147 | the coordinates of the multiple; keys above n are refused, 0 and n are not |
| EcdsaKtSign.Sign | app/src/main/java/com/acurast/attested/executor/crypto/curves/Ecdsa.kt:73-90 | r is the x coordinate of the nonce's point; s is the smaller of the two numbers that fit |
| EcdsaKtSign.SumWithNothing | app/src/main/java/com/acurast/attested/executor/crypto/curves/Ecdsa.kt:229-252 | the sum of a point and what stands for infinity has the x coordinate (a x + b) / x^2 |
| EcdsaKtSign.Verify | app/src/main/java/com/acurast/attested/executor/crypto/curves/Ecdsa.kt:99-128 | what verification accepts, exactly, for digests zero and nonzero modulo n |
| EcdsaKtSign.SignThenVerify | app/src/main/java/com/acurast/attested/executor/crypto/curves/Ecdsa.kt:73-128 | a fresh signature is accepted exactly if r and s are not zero modulo n, and is one of FIPS 186-5 exactly if r is also below n |
| SmallCurve.AssumptionsHold | app/src/main/cpp/sb_sw_curves.h:60-72 | a curve, its constants and the multiples of its generator for which everything that is assumed holds |

## Left out

- The group law: that the chord-and-tangent law is associative is assumed (`Multiples`), not proved.
- Verify.VerifySignature: for the public keys H, -H, G - H and -G - H the decision is given as the run of the loop in
  affine points with (0, 0) in the table, and not in terms of the signature.
- Sign.SignDigest: the random generation of nonces and Z values is a parameter; that the generator's candidates feed it
  is shown for the path without a random source only (`Rfc6979.DeterministicSecret`).
- EcdsaKt.QuickPowIsPower: for exponent zero the recursion of the source does not end; the model asks for a positive one.
- The memory that saved state and temporaries share (`sb_sw_context.h:321-329`): during a call the fields stand for the
  copy of the state that the source works on, and between calls `SessionRun.SaveState` overwrites the temporaries.  The
  storage that parameters share is kept apart.
- The register programs of `sb_sw_lib.c` work on values of field elements; that the word routines compute these values is
  proved in `PrimeFields` and `Montgomery`, and the two are not run together on arrays.
- Selection of Z from a buffer, key generation and the private-key checks: like `Sign.KFromBuf` and
  `Verify.ScalarValidate`.
- The size of the sum of additional inputs to the generator is taken without overflow.
- Mask arithmetic, constant time, blinding quality, the ARM assembly, the constants of the two curves.
- `recoverToPublicKey` and the decoding of hexadecimal arguments in `Ecdsa.kt`; test code, JNI glue, and the Android
  application.
