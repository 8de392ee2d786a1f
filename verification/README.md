# BIKE: a verified model

This project models the portable implementation of BIKE (Bit Flipping Key Encapsulation, specification v5.1) and
proves what it computes, for all inputs and for the parameter sets of levels 1, 3 and 5. Polynomials over GF(2)
are natural numbers under carry-less arithmetic: bit i of a number is the coefficient of x^i. The machine words of
the program are the same numbers below 2^64, and `Words.Val` and `RawBytes.ByteVal` give the polynomial held in an
array of words or a string of bytes, so every method is stated directly against polynomial arithmetic. Code that
works on buffers in place is modelled as methods over arrays with the same loops, masks and branches.

| files | content |
|---|---|
| `Bits`, `Poly`, `Ring`, `Modular`, `Frobenius`, `Inversion` | polynomials over GF(2), the ring GF(2)[x]/(x^r - 1), powers by permutation, inversion by powering |
| `Params`, `Tables`, `Utilities`, `Words`, `RawBytes` | parameter sets, the constant tables, branch-free helpers, memory as words and bytes |
| `MulBasePort`, `MulBasePclmul`, `KaratsubaIdentity`, `Karatsuba`, `Gf2xMul`, `Gf2xSqr`, `KSqrAvx`, `Gf2xInv` | the arithmetic of `src/gf2x` |
| `Rotation`, `BitSlice`, `DecodePortable`, `Threshold`, `Decode` | the decoder of `src/decode` |
| `Bgf`, `Classification`, `Correction`, `OneBitError` | the decoder on polynomials, its algebra, the exact range of its threshold comparison, and errors that it is sure to correct |
| `AesCtrPrf`, `Sampling`, `Uniformity`, `SparseVectors`, `Generate`, `Reachable` | the generator and the fixed-weight samplers of `src/random`, and what they can produce |
| `Kem`, `HashInputs` | key generation, encapsulation and decapsulation of `src/kem.c`, and what its hashes are applied to |

The main line of the proofs: the word-level kernels refine the ring (`Karatsuba.Karatzuba`, `Gf2xMul.ModMul`,
`Gf2xInv.ModInv`), the decoder's kernels refine counts and cyclic rotations (`Decode.CountUpc`), the whole decoder
refines a state machine on polynomials (`Decode.DecodePort`), the samplers are functions of the generator's stream
(`Sampling`), and encapsulation and decapsulation are functions of keys, seeds and uninterpreted hashes (`Kem`).
Each of these functions is then described without its own definition: the products by convolution and by the laws of
the ring, a decoder pass bit by bit through counts and the counts as overlaps of columns (`Bgf.FirstIteration`,
`Correction.CountIsOverlap`), the samples through the bytes that draw them (`Sampling.SampleEntry`) and through what can
be drawn (`Reachable`), and the arguments of the hashes through hashes that show a piece of them (`HashInputs`).

Preconditions that the code relies on and the model states: r is odd; the padded length is a power of two times the
base width of the multiplier; Karatsuba's output is zero on entry unless the operands fill their padding; the
operands of a ring product are zero from word R_QWORDS on.

Where the code and its documentation differ, the model follows the code:

- The comment at `include/internal/utilities.h:37` promises ceil(log2(val)) and an index below 64. The scan returns one
  more than that at powers of two (`Utilities.BitLengthIsCeilLog2`), and 64 from 2^63 on
  (`Utilities.BitLengthBelow64`). It is only called on r and 2 * r, which are no powers of two.
- At level 3 the threshold computed from the syndrome can exceed half the range of the bit-sliced counters, and then the
  sign slice no longer tells a count above the threshold from one far below it. `Bgf.Reaches` is what the code decides;
  `Classification.ClassificationExact` gives the exact syndrome weights for which it is the intended comparison, and
  `Classification.FlippedWithoutFailedChecks` an input for which it is not.
- The reduction is documented as a mod (x^r - 1). It folds once, so the product is the one of the ring exactly when the
  degrees of the operands add up to less than 2r (`Ring.FoldMulExact`, `Gf2xMul.ModMulExact`). Operands with padding
  bits set, as a received public key may have, can miss that; `Ring.FoldMulDrops` gives all monomials that do, and
  `Kem.PaddedKeyDrops` an encryption.
- Decapsulation is meant to reject every ciphertext that is not the encryption of the message it recovers. It compares
  H(m') with the decoded error, and does not encrypt m' again. `Kem.DecapsulationAccepts` has the exact condition under
  which that is right, for a unit h0 and a confirmed error: c0 = e0 + e1 * pk, which is to say that the decoder has
  reached a zero syndrome and that c0 has no bit set from r on. There are two ways to miss it. The decoder returns
  after its last iteration whatever the syndrome, and keeps a guess with a light one: `Kem.ResidueIsNotRejected` gives
  such ciphertexts. And nothing checks the padding bits of c0: `Kem.TwinDecapsulates`, `Kem.TwinIsNoEncryption` and
  `Kem.TwinIsNotRejected` are about c0 + x^r + 1.
- Key indices are meant to be below r, and nothing checks that either. An index is rotated by `Rotation.Shift` of it, which
  is the index itself below r (`Decode.KeyShiftsOfIndices`); the decoder is modelled for all lists.

## Model

| member | source | states |
|---|---|---|
| `Poly.MulIsConvolution` | src/gf2x/gf2x_mul_base_portable.c:19-75 | Coefficient k of the reference product is the parity of the number of pairs of set coefficients that meet at k, so every product stated with `Mul` is the GF(2) convolution |
| `Poly.MulAssoc` | src/gf2x/gf2x_mul_portable.c:54-80 | The product is associative (with `MulComm`, `MulXorL` and `MulXorR`, the ring laws on all polynomials) |
| `Ring.RedIsRemainder` | src/gf2x/gf2x_mul_portable.c:79-80 | Reduction yields the one polynomial of degree below r congruent to its argument modulo x^r - 1 |
| `Ring.RMulAssoc` | src/gf2x/gf2x_mul.c:86-102 | The product modulo x^r - 1 is associative (with `RMulComm`, `RMulXor`, `RMulOne`: a commutative ring) |
| `Ring.FoldMulExact` | src/gf2x/gf2x_mul_portable.c:79-103 | For operands of degrees m and n with m + n below 3r, the product that the program computes is the product modulo x^r - 1 if and only if m + n is below 2r |
| `Gf2xMul.ModMulExact` | src/gf2x/gf2x_mul.c:86-102 | The same if-and-only-if for any two operands of at most R_QWORDS words, which is all that the program multiplies |
| `Ring.FoldMulDrops` | src/gf2x/gf2x_mul_portable.c:79-103 | The failing inputs among the monomials: for 2r <= i + j < 3r the program computes x^i * x^j = 0 where the ring has x^(i+j-2r) |
| `Kem.PaddedKeyDrops` | src/kem.c:112-120 | One in `encrypt`, at every level: under the public key x^(r+1), which has a padding bit set, the error (e0, x^(r-1)) is encrypted to e0 where it should be e0 + 1 |
| `Ring.FoldMulIsRMul` | src/gf2x/gf2x_mul_portable.c:80-103 | On ring elements the program computes the product of the ring |
| `Ring.FoldMulSplit` | src/gf2x/gf2x_mul_portable.c:80-103 | The product of any number with a ring element, from the parts below and from bit r: the upper part contributes without wrapping |
| `Poly.SquareXor` | src/gf2x/gf2x_mul_base_portable.c:78-86 | The square of a sum is the sum of the squares: cross terms cancel |
| `MulBasePort.MulBasePort` | src/gf2x/gf2x_mul_base_portable.c:19-75 | For any two words, the two output words hold the full 128-bit carry-less product, through the masked window table over the low 61 bits and the correction for the top three; no other word of the output changes |
| `MulBasePort.NextWindow` | src/gf2x/gf2x_mul_base_portable.c:51-64 | Two more 3-bit windows extend the partial product by six bits of a, for every table entry and with the bits shifted out of the low word kept in the high one |
| `MulBasePclmul.Mul4IntCorrect` | src/gf2x/gf2x_mul_base_pclmul.c:21-87 | The nine CLMULs and the in-register additions yield the full 256x256-bit product |
| `MulBasePclmul.MulBasePclmul` | src/gf2x/gf2x_mul_base_pclmul.c:91-131 | For any two 8-word operands the 16 output words hold the full product; no other word changes |
| `KaratsubaIdentity.KaratsubaStep` | src/gf2x/gf2x_mul_portable.c:54-77 | The four quarters written by the last pass, t + l0 + m0 and t + m1 + h1 in the middle, are the product of the joined operands |
| `Karatsuba.KaratzubaAdd3` | src/gf2x/gf2x_mul_portable.c:54-77 | The in-place pass leaves exactly the assembled quarters in its 4n words and touches nothing else |
| `Karatsuba.Karatzuba` | src/gf2x/gf2x_mul.c:25-84 | For every base width and every multiplier that meets its contract at that width, every padded length that is a power of two times the width, every real length up to it, and zero-padded inputs (and a zeroed output unless the lengths agree), the output holds exactly the product; nothing changes outside these 2 * pad words and the first 3 * (pad - base) words of scratch, including when the upper half is skipped and when the inputs lie in the scratch buffer |
| `Karatsuba.LowerHalfOnly` | src/gf2x/gf2x_mul.c:60-83 | The branch that skips the upper half: with zero upper halves and a zeroed upper output, the product of the lower halves is the whole product |
| `Gf2xMul.RedPort` | src/gf2x/gf2x_mul_portable.c:80-103 | Every bit below r of the output is the sum of bits p and p + r of the input, the padding is cleared, and this is the remainder modulo x^r - 1 for inputs of degree below 2r |
| `Gf2xMul.ModMul` | src/gf2x/gf2x_mul.c:86-102 | For any operands of at most R_QWORDS words exactly the fold of the full product, which is the ring product for ring elements, also when the output aliases an input; the output is again zero from bit r on |
| `Gf2xMul.ModAdd` | include/internal/gf2x.h:14-23 | The output is the polynomial sum, also when it aliases an input |
| `Gf2xSqr.SqrPort` | src/gf2x/gf2x_mul_base_portable.c:78-86 | Squaring every word separately gives the square of the whole polynomial |
| `Gf2xSqr.SqrPclmul` | src/gf2x/gf2x_mul_base_pclmul.c:133-149 | The same for two words at a time |
| `Gf2xSqr.ModSqrInPlace` | src/gf2x/gf2x_inv.c:18-24 | In place, a becomes the ring product of a with itself, with every squaring routine |
| `Gf2xSqr.RepeatedSquaring` | src/gf2x/gf2x_inv.c:27-38 | The output is the input squared n times |
| `Frobenius.PermuteIsSqrN` | src/gf2x/gf2x_ksqr_portable.c:18-26 | Whenever l * 2^k = 1 modulo r, moving coefficient (l * p) mod r to p equals k successive squarings, for every ring element |
| `Frobenius.SqrNIsRPow` | src/gf2x/gf2x_inv.c:27-38 | k squarings compute the power 2^k |
| `Gf2xSqr.KSqrPort` | src/gf2x/gf2x_ksqr_portable.c:28-48 | Bit p of the output is bit (l * p) mod r of the input for p < r, and no other bit is set |
| `KSqrAvx.GenerateMapAvx2` | src/gf2x/gf2x_ksqr_avx2.c:50-105 | With wrapping lane additions and the signed comparison, every map entry i is (i * l) mod r, for every l < r, in 16-bit lanes and in 32-bit lanes |
| `KSqrAvx.GenerateMapAvx512` | src/gf2x/gf2x_ksqr_avx512.c:61-102 | The same for the unsigned comparison and masked subtraction |
| `KSqrAvx.KSqrAvx` | src/gf2x/gf2x_ksqr_avx2.c:190-210 | The vectorised k-squarings compute the same permutation as the portable one |
| `Tables.TablesCorrect` | src/gf2x/gf2x_inv.c:73-114 | At every level every row i of the tables is right: k = 2^i with its inverse l, and for each set bit i of r - 2 the exponent (r - 2) mod 2^i with its inverse |
| `Tables.ExponentEnds` | src/gf2x/gf2x_inv.c:115-169 | The exponents end at r - 2, and 2^(r-1) = 1 modulo r for the three values of r |
| `Inversion.OnesAdd` | src/gf2x/gf2x_inv.c:142-164 | The step of the loop: (a^(2^s - 1))^(2^u) * a^(2^u - 1) = a^(2^(s+u) - 1) |
| `Gf2xInv.InvStep` | src/gf2x/gf2x_inv.c:142-164 | Iteration i takes f = a^(2^(2^(i-1)) - 1) and t = a^(2^((r-2) mod 2^i) - 1) to the same with i + 1 |
| `Gf2xInv.BasesSuit` | include/internal/gf2x_internal.h:18-20 | The base widths 1, 8 and 16 divide the padded length of every level by a power of two |
| `Gf2xInv.ModInv` | src/gf2x/gf2x_inv.c:118-169 | For every ring element, level and choice of implementations the result is a^(2^(r-1) - 2), and the padding stays zero |
| `Gf2xInv.ModInvMeaning` | src/gf2x/gf2x_inv.c:7-10 | a * a * inv(a) = a for every a, and inv(a) is the unique inverse of a exactly when a has one |
| `Params.Log2MsbTight` | include/internal/defs.h:71-88 | For 0 < v < 512, LOG2_MSB(v) bits are enough for v and one fewer are not |
| `Rotation.UptoPow2Correct` | include/internal/defs.h:60-69 | UPTOPOW2(v) is the least power of two that is at least v |
| `Rotation.DupPort` | src/decode/decode_portable.c:69-78 | Every bit below 64 * (3 * R_QWORDS - 1) repeats the first r bits with period r; the last word is not touched |
| `Rotation.DupIdempotent` | src/decode/decode.c:254-257 | Duplicating a duplicated syndrome again, as the decoder does, changes nothing |
| `Rotation.RotrBig` | src/decode/decode_portable.c:15-35 | The logarithmic barrel shift: word i of the output is word i + BigShift(qw) of the input for i up to R_QWORDS, for every 32-bit qw; BigShift is qw below 2 * UPTOPOW2(R_QWORDS / 2) and the sum of all steps from there on |
| `Rotation.RotrSmall` | src/decode/decode_portable.c:38-52 | In place, every word takes its bits from itself and from the old next word, for every shift below 64 including 0 |
| `Rotation.ShiftInRange` | src/decode/decode_portable.c:12-35 | A rotation by n is met exactly if n is below 128 * UPTOPOW2(R_QWORDS / 2), others are cut down to the largest of those with the same bit offset, and whatever n is, only periodic words of the triplicated syndrome are read |
| `Rotation.RotateRightPort` | src/decode/decode_portable.c:54-62 | Bit p of the output is bit p + Shift(n) of the input, for every n and every p in the first R_QWORDS words, with every read in bounds |
| `Rotation.RotationIsCyclic` | src/decode/decode_portable.c:54-62 | On a duplicated syndrome, bit p of the rotation by n is bit (p + n) mod r of the syndrome, for every p < r and every n that a rotation can be by |
| `BitSlice.SliceAddExact` | src/decode/decode_portable.c:81-93 | In every column with room the sliced ripple carry adds exactly the incoming bit and leaves no carry |
| `BitSlice.SliceSubExact` | src/decode/decode_portable.c:95-125 | In every column the ripple borrow computes the difference modulo 2^SLICES |
| `DecodePortable.BitSlicedAdderPort` | src/decode/decode_portable.c:81-93 | The in-place adder computes the sliced sum, and leaves the carries in its operand |
| `DecodePortable.BitSliceFullSubtractPort` | src/decode/decode_portable.c:95-125 | The in-place subtractor computes the sliced difference |
| `Decode.KeyShiftsOfIndices` | src/decode/decode.c:153-158 | At every level every index below r is rotated by itself |
| `Decode.AddOne` | src/decode/decode.c:153-158 | Adding a bit to counters of at most j in only LOG2_MSB(j + 1) slices loses no carry |
| `Decode.CountUpc` | src/decode/decode.c:153-158 | After all rounds of rotate and add, the counter of every p < r is the number of rotations w of the key half, its indices if they are below r, with syndrome bit (p + w) mod r set |
| `Decode.GrayIsNear` | src/decode/decode.c:179-191 | After DELTA increments, a position that is not black has its sign clear exactly when its count misses the threshold by at most DELTA |
| `Decode.FindErr1` | src/decode/decode.c:137-193 | In each half exactly the positions below r are flipped and marked black whose count reaches the threshold or misses it by more than half the counter range (`Bgf.ThresholdPass`), exactly those that miss it by at most DELTA are marked gray, and no bit of e is set from r on |
| `Decode.FindErr2` | src/decode/decode.c:197-234 | In each half exactly those positions of its own mask are flipped whose count is at least (D + 1) / 2 + 1 (`Bgf.MaskedPass`), for every syndrome at every level, and no bit of e is set from r on |
| `Bgf.BlackAtMajority` | src/decode/decode.c:274-286 | For the threshold that find_err2 is called with this is the plain comparison: black means count at least (D + 1) / 2 + 1, for every syndrome at every level |
| `Bgf.BlackIsAtLeast` | include/internal/bike_defs.h:114-116 | Black means count at least the threshold, for every syndrome at levels 1 and 5 and for weights up to 21603 at level 3 |
| `Classification.ClassificationExact` | include/internal/bike_defs.h:43-51 | At level 3 the comparison is right for every key and position exactly for syndrome weights at most 21603 or at least 24572 |
| `Classification.FlippedWithoutFailedChecks` | src/decode/decode.c:236-269 | A concrete ciphertext and key at level 3, for every public key: the decoder starts from a syndrome of weight 24514 and flips position 0 of e1, although no parity check of that position fails |
| `Classification.BlockSyndrome` | src/decode/decode.c:254-256 | The syndrome of the inputs used there: a block of d * n one bits from a comb of n and a block of d |
| `Classification.UpcAtLeast` | src/decode/decode.c:153-158 | A key of distinct indices meets at least its weight minus the number of clear syndrome bits |
| `Threshold.RBitsVectorWeight` | src/common/utilities.c:15-24 | The number of set bits below r, whatever the padding bits of the last byte |
| `Threshold.DivideExact` | src/decode/decode.c:92-100 | For numerators below 2^35 with remainder at least 2 modulo 10^8 the truncated high product and the shift divide exactly by 10^8, without overflow |
| `Threshold.GoodWeights` | include/internal/bike_defs.h:27-28 | No syndrome weight of any level leaves remainder 0 or 1 |
| `Threshold.GetThreshold` | src/decode/decode.c:102-132 | For every syndrome the result is max(floor((T0 + T1 * S) / 10^8), THRESHOLD_MIN) |
| `Threshold.ThresholdIsFloor` | src/decode/decode.c:107-128 | That is the largest integer that T0 + T1 * S reaches, with the coefficients in units of 10^-8, or the minimum of the level if larger |
| `Threshold.ThresholdFits` | include/internal/bike_defs.h:18-31 | The threshold is at most half the counter range for every weight at levels 1 and 5, and exactly up to weight 21603 at level 3 |
| `Decode.ComputeSyndrome` | src/decode/decode.c:56-67 | The syndrome array repeats the product of its arguments with period r |
| `Decode.RecomputeSyndrome` | src/decode/decode.c:69-90 | The syndrome array repeats h0 * (c0 + e0 + pk * e1) |
| `Decode.Iteration` | src/decode/decode.c:262-290 | One iteration takes (e, s) to the next guess of the polynomial decoder, which the next four rows describe bit by bit, and its syndrome, keeping e below bit r |
| `Bgf.FirstIteration` | src/decode/decode.c:262-290 | The first iteration makes three passes, each under the syndrome of the guess left by the pass before: over all positions at the computed threshold, over what that flipped at the majority threshold, and over what missed the first threshold by at most DELTA at the majority threshold |
| `Bgf.LaterIteration` | src/decode/decode.c:262-274 | Every other iteration is the first of these passes alone |
| `Bgf.RunStarts` | src/decode/decode.c:258-290 | The second guess of a run comes from the zero guess in the three passes |
| `Bgf.RunSteps` | src/decode/decode.c:262-274 | Every later guess comes from the one before it in one pass, and the result is the guess after five iterations |
| `Decode.DecodePort` | src/decode/decode.c:236-291 | For every ciphertext and every key, padding bits and index lists of any content included, the program computes the decoder on polynomials |
| `Bgf.RunFits` | src/decode/decode.c:160-177 | In every run, no guess has a bit set at or above r |
| `Bgf.SyndromeOfDifference` | src/decode/decode.c:69-90 | If pk * h0 = h1 and c0 = x0 + x1 * pk, the syndrome of every guess e is h0 * (e0 + x0) + h1 * (e1 + x1) |
| `Bgf.QuietStays` | src/decode/decode.c:262-290 | A guess under whose syndrome no count reaches a threshold is not changed by an iteration; in particular one with zero syndrome (`ZeroIsQuiet`) |
| `Classification.LightIsQuiet` | src/decode/decode.c:262-290 | For distinct key indices that holds for every syndrome lighter than THRESHOLD_MIN of the level |
| `Classification.UpcAtMost` | src/decode/decode.c:153-158 | A key of distinct indices meets at most as many set syndrome bits as there are |
| `Bgf.RunIsStable` | src/decode/decode.c:262-290 | Once a run reaches a guess with such a syndrome, zero or not, all later iterations keep it |
| `Bgf.DecodeFinds` | src/decode/decode.c:236-291 | If any iteration finds the error of the ciphertext, that error is the final result |
| `Correction.CountIsOverlap` | src/decode/decode.c:153-158 | The count of a position is the number of common bits of the syndrome and the column of the position, x^p times the key half in the ring |
| `Correction.IterationFinds` | src/decode/decode.c:262-290 | An iteration finds the error of the ciphertext if the positions that its first pass flips are those where its guess is wrong, and after the first iteration only if |
| `Correction.DecodeCorrects` | src/decode/decode.c:236-291 | If that holds of any guess of a run but the last, decoding returns the error |
| `Correction.IterationCorrects` | src/decode/decode.c:262-290 | For every key, error and guess, if the columns of the t wrong positions meet other columns in at most m positions each, and the threshold is above t * m and at most D - (t - 1) * m, the iteration finds the error |
| `Correction.FewErrors` | src/decode/decode.c:262-290 | That is so whenever t * m is below THRESHOLD_MIN, at every level: the computed threshold is then THRESHOLD_MIN |
| `Correction.FewErrorsDecode` | src/decode/decode.c:236-291 | So every error of t positions with t * m below THRESHOLD_MIN is decoded, in the first iteration |
| `OneBitError.OneBitIsCorrected` | src/decode/decode.c:236-291 | A concrete instance at level 1: with the squares below 71 * 71 as the first list and 0 to 70 as the second, every ciphertext x^j is decoded to the error (x^j, 0), for every public key |
| `Bgf.ZeroSyndromeExplains` | src/decode/decode.c:69-90 | For a unit h0 and every ciphertext polynomial, a guess has zero syndrome if and only if the ring element that the polynomial stands for, its low part plus the trace of its bits from r on, is e0 + e1 * pk |
| `Bgf.SameSyndrome` | src/decode/decode.c:69-90 | For a unit h0, two ciphertext polynomials have the same syndrome for a guess, and then for every guess, if and only if they stand for the same ring element |
| `Bgf.SameRuns` | src/decode/decode.c:236-291 | Ciphertext polynomials with the same syndromes have the same runs |
| `Bgf.ZeroSyndromeReduced` | src/decode/decode.c:69-90 | Without such bits: if and only if c0 = e0 + e1 * pk |
| `Bgf.TwinRun` | src/decode/decode.c:236-291 | Adding x^r + 1 to the ciphertext polynomial changes no guess of any run |
| `AesCtrPrf.InitPrfState` | src/random/aes_ctr_prf.c:11-41 | A state at the start of the stream with the whole budget, or a failure exactly for an empty budget |
| `AesCtrPrf.Prf.PerformAes` | src/random/aes_ctr_prf.c:43-60 | The block of the old counter is written and one invocation moves from the budget to the counter, or nothing changes and it fails, exactly when the budget is used up |
| `AesCtrPrf.Prf.GetPrfOutput` | src/random/aes_ctr_prf.c:62-95 | A request yields the next len bytes of the blocks E(0), E(1), .. in order; it fails exactly when it needs more cipher calls than remain; counter plus remaining invocations never changes; after a failure the position is 0 with a stale buffer |
| `AesCtrPrf.ServeAll` | src/random/aes_ctr_prf.c:62-95 | Any sequence of requests returns one consecutive piece of the stream however the lengths are split, keeps counter plus remaining invocations, and fails exactly when its requests together need more cipher calls than remain |
| `AesCtrPrf.CallsNeeded` | src/random/aes_ctr_prf.c:62-95 | The balance of bytes: what was in the buffer plus 16 for every cipher call has been served or is left, and at most one block is left |
| `AesCtrPrf.SplitsDifferByOne` | src/random/aes_ctr_prf.c:62-95 | Two splits of the same total cost the same number of cipher calls, or differ by one when the last byte served ends a block (with `SplitMatters`, where they do) |
| `Sampling.FisherYatesDistinct` | src/random/sampling.c:116-143 | Whatever the draws, the entries are distinct and entry i lies in [i, max) |
| `Sampling.PickIsScaled` | src/random/sampling.c:121-128 | The value picked for entry i from a draw is i plus the part of max - i in proportion to the draw, rounded down |
| `Sampling.Le32IsByteVal` | src/random/sampling.c:123-124 | A draw is the number that its four bytes hold, the first byte lowest |
| `Sampling.SampleEntry` | src/random/sampling.c:116-143 | Every entry of the sample from the bytes of the stream: four bytes an entry, from the last entry down to the first, scaled to [i, max), and replaced by i if the value occurs later in the list |
| `Sampling.FisherYatesReaches` | src/random/sampling.c:116-143 | Every set of num distinct indices below max is the set of the sample for some 32-bit draws |
| `Uniformity.EverySetEquallyOften` | src/random/sampling.c:116-143 | Over all sequences of picks, every such set is sampled exactly num! times |
| `Uniformity.SamplerSteps` | src/random/sampling.c:116-143 | The loop makes the step that this counts, once for every entry |
| `Sampling.SampleIndicesFisherYates` | src/random/sampling.c:116-143 | The loop computes the sample of the stream in place, entry by entry from the end, and fails exactly when fewer than 4 * num bytes can be served |
| `Sampling.GetRandModLen` | src/random/sampling.c:32-54 | Returns the first masked draw below len, after only rejected ones; terminates because every draw uses up the budget, and fails exactly when that runs out |
| `Sampling.GenerateIndicesModZ` | src/random/sampling.c:90-113 | Returns the first num distinct valid draws in order, or fails exactly when the draws that can still be served do not contain that many |
| `Sampling.AcceptedMeans` | src/random/sampling.c:90-113 | A value is among the distinct valid draws if and only if it is below z and one of the masked draws |
| `Sampling.AcceptedEntry` | src/random/sampling.c:90-113 | They are in order of first appearance: each is a masked draw made when exactly the entries before it had been found |
| `Sampling.MaskedMeans` | src/random/sampling.c:32-54 | The mask keeps every draw below z and yields nothing from 2z on |
| `Sampling.SampleErrorVecIndicesPort` | src/random/sampling_portable.c:52-92 | The constant-length loop computes the state machine `FixedLength` on the stream, including the stale entry at out[ctr] |
| `Sampling.FixedLengthState` | src/random/sampling_portable.c:52-92 | While indices are missing the output is what was found, then the last draw if it was not kept, then invalid entries |
| `Sampling.FixedLengthIsPrefix` | src/random/sampling_portable.c:52-92 | Its output is a list of t distinct indices below z exactly when the draws contain that many, and then the first t of them in order |
| `Sampling.FixedLengthRefinesRejection` | src/random/sampling_portable.c:52-92 | Its output is the valid list s exactly when the rejection sampler on the same stream stops with s within that many draws |
| `Utilities.BitLengthIsCeilLog2` | include/internal/utilities.h:37-49 | The scan returns ceil(log2(x)) except at powers of two, where it returns one more |
| `Utilities.BitLengthBelow64` | include/internal/utilities.h:40-41 | The index is below 64 if and only if the value is below 2^63 |
| `SparseVectors.SecureSetBitsPort` | src/random/sampling_portable.c:15-49 | Bit p is set exactly when some entry minus first_pos, in wrapping signed 32-bit arithmetic, is p; entries of the other half, and invalid ones, set nothing |
| `SparseVectors.KeyWeight` | src/random/sampling.c:145-163 | A key half has exactly as many set bits as its index list is long |
| `SparseVectors.ErrorWeight` | src/random/sampling.c:200-208 | The two halves of an error vector share exactly the weight of the index list |
| `Generate.ErrorVectorWeight` | src/random/sampling.c:183-213 | Total weight exactly T for every stream with the Fisher-Yates sampler; with the uniform sampler the number of distinct valid draws, up to T |
| `Generate.GenerateErrorVector` | src/random/sampling.c:183-213 | It always succeeds; bit p of the first half is set exactly if p is in the index list, bit p of the second exactly if p + r is, for p below r, and no other bit is, so that stale or invalid entries set nothing |
| `Generate.ErrorEntry` | src/random/sampling.c:197-202 | With the Fisher-Yates sampler entry i of the list is drawn from [i, 2r) by its four bytes from the start of the stream |
| `Reachable.ErrorReaches` | src/random/sampling.c:183-213 | Every set of T positions below 2r is an error for some cipher, with both samplers: its positions below r make the first half, the others less r the second |
| `Generate.GenerateSecretKey` | src/random/sampling.c:165-181 | Both halves have weight D and are the polynomials of their lists of distinct indices; the second list is drawn from where the first ended; it succeeds exactly under `KeyGenSucceeds`: always with Fisher-Yates, and with the uniform sampler if the draws within the budget contain D distinct positions and the draws left after them D again |
| `Generate.KeyEntry` | src/random/sampling.c:145-163 | With the Fisher-Yates sampler entry i of a key list is drawn from [i, r) by its four bytes, and the list takes 4 * D bytes of the stream |
| `Reachable.KeysReach` | src/random/sampling.c:165-181 | Every two sets of D positions below r are the lists of a successful key generation for some cipher, with both samplers |
| `Reachable.KeyListUnique` | src/random/sampling.c:165-181 | The stream determines the list of a half and where it ends |
| `RawBytes.RawOfByteVal` | src/kem.c:114-124 | Byte strings and polynomials convert back and forth without loss (with `ByteValOfRaw`) |
| `Kem.FunctionH` | src/kem.c:41-65 | (e0, e1) = H(m), or H(pk, m) with BIND_PK_AND_M, padded; the next two rows say what H is |
| `HashInputs.SeedHashes` | src/kem.c:41-65 | With BIND_PK_AND_M the seed is the first 32 bytes of the hash of R_BYTES + 32 bytes: the public key, then the message; without it the seed is the message |
| `HashInputs.HIsDrawn` | src/kem.c:41-65 | The halves of H(m) are the index list drawn under the cipher of that seed: the indices below r, and those from r on less r |
| `Kem.ErrorOfH` | src/kem.c:41-65 | Every error produced by H is a pair of ring elements, of total weight T with the Fisher-Yates sampler |
| `Kem.Encrypt` | src/kem.c:107-138 | ct = (e0 + pk * e1, L(e) + m) |
| `HashInputs.MessageIsMasked` | src/kem.c:125-135 | c1 and the message add up to L(e) |
| `HashInputs.LHashes` | src/kem.c:67-84 | L is the first 32 bytes of the hash of 2 * R_BYTES bytes: the first half of the error, then the second |
| `Kem.EncryptionIsHonest` | src/kem.c:112-124 | Under a generated key c0 is e0 + pk * e1 in the ring, the input for which the decoder is meant |
| `Kem.CryptoKemKeypair` | src/kem.c:157-202 | The index lists are those drawn from the first seed, sigma is the second seed, both representations of h0 and h1 agree, and pk = h1 * inv(h0); it succeeds exactly if the sampling does |
| `Kem.KeyPairMeans` | src/kem.c:157-202 | For a generated key: weights D, indices that are rotated as they stand, valid decoder input with every ciphertext, and pk * h0 = h1 if h0 is a unit |
| `Kem.CryptoKemEnc` | src/kem.c:207-243 | The ciphertext is the encryption of m under H(m) and the secret is K(m, ct) |
| `HashInputs.KHashes` | src/kem.c:86-105 | K is the first 32 bytes of the hash of 64 + R_BYTES bytes: the message, then c0, then c1 |
| `Kem.CheckDecoded` | src/kem.c:270-281 | The byte comparisons of both halves succeed exactly when H(m') equals the decoded error |
| `Kem.CryptoKemDec` | src/kem.c:248-297 | For every ciphertext the secret is K(m', ct) if H(m') equals the decoded error, and K(sigma, ct) otherwise |
| `HashInputs.DecapsulationHashes` | src/kem.c:270-297 | In front of the ciphertext it is the recovered message that is hashed if it is confirmed, and sigma otherwise |
| `Kem.RoundTrip` | src/kem.c:248-297 | If the decoder recovers the error of an encapsulation, decapsulation returns the encapsulated secret |
| `Kem.RoundTripOfRun` | src/kem.c:248-297 | With a generated key it is enough that some iteration of the decoder finds that error |
| `Kem.FewErrorsRecovered` | src/kem.c:248-297 | With a generated key and a unit h0, encryption under any error of t positions with t * m below THRESHOLD_MIN, its columns meeting others in at most m positions, is decoded to that error and its message |
| `Kem.ConfirmedIsEncryption` | src/kem.c:262-281 | For a unit h0 and every ciphertext, an error is one from which this ciphertext was encapsulated if and only if it is confirmed by the check, has zero syndrome, and the ciphertext has no bit set from r on; the program checks the first condition only |
| `Kem.DecapsulationAccepts` | src/kem.c:248-297 | For a unit h0 and every ciphertext whose decoded error is confirmed, the secret is that of the recovered message, and the ciphertext is the encryption of that message if and only if c0 = e0 + e1 * pk, that is, if and only if the decoder has reached a zero syndrome and no bit is set from r on |
| `Kem.ResidueIsNotRejected` | src/kem.c:248-297 | An encryption of m with v * inv(h0) added, for any nonzero v lighter than THRESHOLD_MIN, has no bit set from r on and is no encryption of m; its message and error are still confirmed with the syndrome v, and if an iteration finds that error the secret is that of m (with `OneBitResidue`, the lightest v) |
| `Kem.TwinDecapsulates` | src/kem.c:248-297 | Flipping bit 0 and bit r of c0 leaves the decoded error, its message and the outcome of the check as they were, for every ciphertext |
| `Kem.TwinIsNoEncryption` | src/kem.c:248-297 | That twin of a ciphertext without padding bits is the encryption of no message under any error and key |
| `Kem.TwinIsNotRejected` | src/kem.c:248-297 | So there is an input on which a ciphertext that is no encryption is not rejected: the twin of any encryption whose error the decoder recovers |
| `Utilities.SecureCmp` | include/internal/utilities.h:76-87 | One exactly when the first size bytes agree |
| `Utilities.SecureL32Mask` | include/internal/utilities.h:158-187 | The portable branch: 0 exactly when v1 < v2, all ones otherwise, for all 32-bit values |
| `Utilities.SecureCmpeq64Mask` | include/internal/utilities.h:190-192 | All ones exactly when the words are equal, zero otherwise |

## Left out

- AVX2 and AVX512 versions of the decoder kernels, the Karatsuba additions, the reduction and the samplers: lane-by-lane copies of the portable algorithms modelled here.
- The instructions of the VPCLMUL base multiplier and squaring: `OfWidth(16)` stands for them, as for any routine that meets their contract.
- KSqrAvx.BinToBytes: does not model the vector instructions of bin_to_bytes, because it is a change of view from bits to bytes; the same holds for KSqrAvx.BytesToBin.
- MulBasePclmul.Mul4IntCorrect: is about registers as pairs of words; the CLMUL instruction is its specified 64x64 product.
- AES, SHA-384, SHAKE and OpenSSL: the block cipher under an expanded key is a function from counters to blocks, and the hash a function from byte strings to digests.
- The SHAKE generator, which discards leftover bytes; sample_uniform_r_bits_with_fixed_prf_context and make_odd_weight, which nothing calls.
- get_seeds and the system randomness: seeds are parameters.
- The probability of a decoding failure: recovery of the error by the decoder is a hypothesis of the round trip. What is proved to be recovered, errors with t * m below THRESHOLD_MIN, is lighter than the T positions that encapsulation draws.
- The decoder without BGF_DECODER, which makes the two masked passes in every iteration: bike_defs.h defines that option.
- Irreducibility of (x^r - 1)/(x - 1): inversion is stated for units, without saying which ring elements are units.
- Utilities.SecureL32Mask: models the portable branch; the x86 branch compares as signed numbers, which agrees for the values below 2^31 that occur.
- Sampling.SampleErrorVecIndicesPort: does not model the contents of its output after a failure of the generator, which the caller discards; the same holds for the other samplers.
- Decode.FindErr1: is written out for the two halves, with one method for a half, instead of a loop over N0; larger functions are split into methods along their steps.
- Constant-time behaviour, value barriers, inline assembly, cleanup of secrets, CPU detection, printing, benchmarks and known-answer tests.
