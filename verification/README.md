# A model of a River2 BLE client and of the curve arithmetic it runs

The firmware talks to a power station over BLE. It agrees on a secret by ECDH on secp160r1, derives AES keys,
authenticates, and then follows the station's telemetry. These files model two parts of it and the state machines on top.

**Curve arithmetic (micro-ecc, 32-bit portable build).** Numbers are little-endian arrays of 32-bit words, changed in
place with manual carries. `Words` gives an array its number; `Vli`, `VliMult`, `VliMod` and `ModInverse` are the word
routines, each proved equal to an exact function of numbers; `Secp160r1` and `Secp256r1` are two fast reductions. `Field`
describes what registers hold: a value at most p, and whether every reduction behind it was sound. `CoZ` has the point
routines, `CoZMeaning` and `DoubleMeaning` what they do to points, `Ladder`, `LadderWords`, `Scalar`, `Exceptional`,
`ExactZero`, `Products`, `KeyMultiply` and `PublicKey` the scalar multiplication up to the shared secret. The group is
any abelian group whose nonzero elements have coordinates obeying the chord, tangent and negation rules (`CurveGroup`).

**Framing and sessions.** `Bytes` and `Crc` hold the table-driven CRCs, `Polynomials` the division they are, `Packet`
the builders and the inner parser, `Stream` an independent left-to-right parse of a whole byte stream, `FrameBuf` the
growing buffer and its runs, `Session` padding and encryption, `Handshake` and `HandshakeRun` the four authentication
steps, `Telemetry` the telemetry task, `Owner` the interleaving of that task with the application's notification loop.

## Reading the model

- A routine that works in place is a method on arrays or on a class. Its contract ties the new state to a function of the
  old one; lemmas prove what that function means.
- The point code takes the curve's own reduction (`fast`) or the general one. Only secp160r1's own is lossy
  (`Field.Lossy`), and `Fe.ok` records whether it stayed out of its gap. Statements about points read: if the result is
  `ok` it is congruent to the mathematical value. With the other reductions every result is `ok`
  (`Products.GeneralReductionSound`), and a result that is not means that one of the products
  of the run met the gap (`Products.SoundUnlessGap`).
- That p and n are prime is not proved. The orders of points (`OrderModel`), and that their ordinates are units
  (`BasePoint`, `UnitMultiple`, `HalfUnit`), are hypotheses: an ordinate is zero only at a point of order two. The
  abscissa of a point of order n may well be zero: it is taken to be a unit or zero, and both cases are proved
  (`PublicKey.VanishesExactly`).
- AES-CBC is any length-preserving bijection on whole blocks, MD5 and the shared secret any functions. The BLE side is a
  queue of chunks. In the handshake and in telemetry each allocation, PSA call and wait may fail by itself
  (`HandshakeRun.Platform`); results of BLE writes, the clock and the random numbers are parameters.

## Where code and comments differ

- `vli_mmod_fast_secp160r1` drops a borrow (curve-specific.inc:229-232). Its result is not congruent to the product for
  folded sums in [2^161 - c, 2^161 - 1]; `Secp160r1.FastReduceFails` gives two field elements that reach them.
- The comments of `uECC_vli_modAdd` and `uECC_vli_modSub` (uECC.c:537-539, 551-553) ask for operands below mod. The fast
  reduction may return p itself, so the contracts here ask for at most mod.
- The range check before the multiplication (uECC.c:1186-1193) admits every private key in [1, n - 1]. On secp160r1 the keys
  1, n - 2 and n - 1 make the ladder add opposite points. If no product is unsound the result is exactly zero
  (`KeyMultiply.ExceptionalKeyExact`), which the caller reports as a failure (`PublicKey.FailsExactly`).
- `uECC_valid_point` (uECC.c:1135-1156) lets a point of the curve with abscissa zero through, and secp160r1 has one
  (`PublicKey.ZeroAbscissaOnCurve`). The inverted value then is zero and so is the result, for every key
  (`Exceptional.ZeroAbscissaFails`), which the caller reports as a failure.
- The last of the sixteen snprintf calls (river2_auth.c:430-433) stores its terminator one byte past the 32-byte
  hex_payload: the calls need 33 bytes (`HandshakeRun.HexRoom`).
- `river2_framebuf_extract` is documented to return false when no complete frame is buffered; it also does when scratch
  memory is refused, a frame then being buffered still (`FrameBuf.FoundNothing`). Each such refusal can cost the caller
  one more chunk of memory (`FrameBuf.GrowsWhenRefused`).
- The protocol document accepts any non-error reply to auto-authentication; the code rejects an 0x86 reply whose payload is
  not exactly one zero byte.
- `uECC_vli_square` is compiled only with `uECC_SQUARE_FUNC`; by default squares go through `uECC_vli_mult`, and `Field`
  follows that.

## Model

| member | source | states |
|---|---|---|
| Vli.Clear | components/micro-ecc/micro-ecc/uECC.c:212-217 | the n words from the given position become zero and nothing else changes |
| Vli.IsZero | components/micro-ecc/micro-ecc/uECC.c:222-229 | true exactly when the number is zero |
| Vli.TestBit | components/micro-ecc/micro-ecc/uECC.c:232-234 | nonzero exactly when the bit of the whole number is set, for any bit inside the words |
| Vli.NumDigits | components/micro-ecc/micro-ecc/uECC.c:237-245 | the words above the result are zero and the top one below it is not |
| Vli.NumBits | components/micro-ecc/micro-ecc/uECC.c:248-263 | the bit length: zero for zero, otherwise the number lies between the two powers of two |
| Vli.Set | components/micro-ecc/micro-ecc/uECC.c:267-272 | the copied words equal the source's as they were; the rest of dest is unchanged |
| Vli.CmpUnsafe | components/micro-ecc/micro-ecc/uECC.c:276-288 | the sign of the difference of the two numbers |
| Vli.Cmp | components/micro-ecc/micro-ecc/uECC.c:309-316 | the subtracting comparison gives the same sign |
| Vli.Rshift1 | components/micro-ecc/micro-ecc/uECC.c:320-330 | the number is halved, bits carried across words |
| Vli.Add | components/micro-ecc/micro-ecc/uECC.c:335-349 | result + carry * 2^(32n) is the sum, also when result is an operand |
| Vli.Sub | components/micro-ecc/micro-ecc/uECC.c:354-368 | result + right is left + borrow * 2^(32n), also when result is an operand |
| VliMult.ColumnsAreProduct | components/micro-ecc/micro-ecc/uECC.c:416-445 | the column sums, weighted by position, are the product of the two numbers |
| VliMult.MulAdd | components/micro-ecc/micro-ecc/uECC.c:374-412 | adds a * b to the three-word accumulator modulo 2^96 |
| VliMult.Mul2Add | components/micro-ecc/micro-ecc/uECC.c:451-496 | adds 2 * a * b to the accumulator modulo 2^96, the doubled top bit included |
| VliMult.MultColumn | components/micro-ecc/micro-ecc/uECC.c:426-438 | a whole column is added without the accumulator overflowing |
| VliMult.Mult | components/micro-ecc/micro-ecc/uECC.c:416-445 | the 2n-word result is the exact product |
| VliMult.HalfSumIsColumn | components/micro-ecc/micro-ecc/uECC.c:507-515 | half a square's column, off-diagonal terms doubled, is the whole column |
| VliMult.Square | components/micro-ecc/micro-ecc/uECC.c:498-523 | the same value as the product of left with itself |
| VliMod.AddModCong | components/micro-ecc/micro-ecc/uECC.c:540-550 | for operands at most m the result is at most m and congruent to the sum |
| VliMod.SubModCong | components/micro-ecc/micro-ecc/uECC.c:554-565 | for operands at most m the result is at most m and congruent to the difference |
| VliMod.ModAdd | components/micro-ecc/micro-ecc/uECC.c:540-550 | computes that weak sum, result allowed to be an operand |
| VliMod.ModSub | components/micro-ecc/micro-ecc/uECC.c:554-565 | computes that weak difference, result allowed to be an operand |
| VliMod.AlignMod | components/micro-ecc/micro-ecc/uECC.c:569-591 | mod_multiple is mod * 2^shift and fills the top bit of 2n words |
| VliMod.HalveMultiple | components/micro-ecc/micro-ecc/uECC.c:604-606 | the shift done on two halves halves the whole number |
| VliMod.ReduceRound | components/micro-ecc/micro-ecc/uECC.c:593-607 | a round keeps the residue and the bound, through the subtraction, the index swap and the halving |
| VliMod.ReduceLoop | components/micro-ecc/micro-ecc/uECC.c:593-607 | the loop leaves, in the array its index names, the residue below m of the number it started with |
| VliMod.Mmod | components/micro-ecc/micro-ecc/uECC.c:569-609 | exactly product mod m for every 2n-word product, when the top word of mod is not zero |
| ModInverse.HalveModCong | components/micro-ecc/micro-ecc/uECC.c:681-692 | halving modulo an odd m gives w < m with 2w congruent to u |
| ModInverse.FinalIsGcd | components/micro-ecc/micro-ecc/uECC.c:713-737 | the loop ends with a the greatest common divisor of the start values |
| ModInverse.FinalTracks | components/micro-ecc/micro-ecc/uECC.c:713-737 | to the end, input * u is congruent to a and input * v to b |
| ModInverse.InverseTimesInput | components/micro-ecc/micro-ecc/uECC.c:696-739 | for every odd m > 1 and input > 0, input times the result is congruent to their gcd |
| ModInverse.InverseOfUnit | components/micro-ecc/micro-ecc/uECC.c:696-739 | a unit's inverse is found |
| ModInverse.RoundsBound | components/micro-ecc/micro-ecc/uECC.c:713-737 | the rounds number at least two fewer than the bits of the input and the modulus together |
| ModInverse.ModInvUpdate | components/micro-ecc/micro-ecc/uECC.c:681-692 | halves modulo mod in place, the carry put back as the top bit |
| ModInverse.InvRound | components/micro-ecc/micro-ecc/uECC.c:714-736 | one pass on the four registers, dropped carries and borrows cancelling |
| ModInverse.InvLoop | components/micro-ecc/micro-ecc/uECC.c:713-737 | the loop ends in the final state after exactly the counted rounds |
| ModInverse.ModInv | components/micro-ecc/micro-ecc/uECC.c:696-739 | the result is the residue described by the lemmas above, zero for input zero, for any aliasing with input |
| Secp160r1.FoldedCong | components/micro-ecc/micro-ecc/curve-specific.inc:215-227 | the folded sum is congruent to the product and below 2^161 + c^2 |
| Secp160r1.FastReduceCong | components/micro-ecc/micro-ecc/curve-specific.inc:215-236 | the reduction is congruent to the product exactly when the folded sum lies outside [2^161 - c, 2^161 - 1] |
| Secp160r1.FastReduceFails | components/micro-ecc/micro-ecc/curve-specific.inc:229-232 | two field elements whose fast product is wrong |
| Secp160r1.OmegaMult | components/micro-ecc/micro-ecc/curve-specific.inc:257-272 | multiplication by c = 2^31 + 1 into six words, with the carry loop staying inside them |
| Secp160r1.Fold | components/micro-ecc/micro-ecc/curve-specific.inc:215-227 | result and carry spell the folded sum, carry at most 2 |
| Secp160r1.SubtractCarries | components/micro-ecc/micro-ecc/curve-specific.inc:229-232 | what the loop leaves when borrows are dropped |
| Secp160r1.MmodFast | components/micro-ecc/micro-ecc/curve-specific.inc:215-236 | the word routine computes the reduction of the lemmas; the result is at most p |
| Secp256r1.NineTermsCong | components/micro-ecc/micro-ecc/curve-specific.inc:883-979 | the nine-term sum is congruent to the product modulo p |
| Secp256r1.AddTerms | components/micro-ecc/micro-ecc/curve-specific.inc:887-927 | carry * 2^256 + result is t + 2 s1 + 2 s2 + s3 + s4 exactly |
| Secp256r1.SubTerms | components/micro-ecc/micro-ecc/curve-specific.inc:929-968 | the four subtractions keep carry * 2^256 + result exact, carry going negative |
| Secp256r1.Correct | components/micro-ecc/micro-ecc/curve-specific.inc:970-978 | both correction loops end, with the residue below p |
| Secp256r1.MmodFast | components/micro-ecc/micro-ecc/curve-specific.inc:883-979 | exactly product mod p for every 16-word product |
| Field.ReduceCong | components/micro-ecc/micro-ecc/uECC.c:622-633 | the reduction contract: at most p, and congruent unless secp160r1's fast reduction meets its gap |
| Field.MulMeans | components/micro-ecc/micro-ecc/uECC.c:622-633 | on the numbers: a product is congruent, and as sound as its operands, exactly when secp160r1's fast reduction does not meet [2^161 - c, 2^161 - 1], and a product below p is exact |
| Field.RepMul | components/micro-ecc/micro-ecc/uECC.c:622-633 | multiplying registers that hold at most p multiplies what they stand for |
| Field.RepAdd | components/micro-ecc/micro-ecc/uECC.c:540-550 | adding registers that hold at most p adds what they stand for |
| Field.RepSub | components/micro-ecc/micro-ecc/uECC.c:554-565 | subtracting registers that hold at most p subtracts what they stand for |
| Field.RepHalf | components/micro-ecc/micro-ecc/curve-specific.inc:76-82 | adding p when odd and shifting gives the h with 2h congruent to the value |
| Field.RepInv | components/micro-ecc/micro-ecc/uECC.c:696-739 | inverting a register that stands for a unit gives the inverse |
| Field.OthersMean | components/micro-ecc/micro-ecc/uECC.c:540-565 | sums, differences, halves and inverses are always congruent, and exactly as sound as their operands |
| Field.ModMultFast | components/micro-ecc/micro-ecc/uECC.c:622-633 | product and reduction on words, by the fast reduction of secp160r1 or secp256r1 or by the general one, with result allowed to be an operand: the words are at most p and congruent to the product exactly when it does not meet the gap |
| Field.ModSquareFast | components/micro-ecc/micro-ecc/uECC.c:672-676 | the square, by the same routine and under the same condition |
| Field.FHalf | components/micro-ecc/micro-ecc/curve-specific.inc:76-82 | the halving on words, the carry put back as the top bit |
| CoZ.ApplyZWords | components/micro-ecc/micro-ecc/uECC.c:753-763 | X1 Z^2 and Y1 Z^3 in place |
| CoZ.XYcZAdd | components/micro-ecc/micro-ecc/uECC.c:794-820 | the register program computes the co-Z addition and leaves the difference in sub |
| CoZ.XYcZAddC | components/micro-ecc/micro-ecc/uECC.c:826-861 | the register program computes difference and sum, sub only read |
| CoZ.DoubleJacobian | components/micro-ecc/micro-ecc/curve-specific.inc:50-95 | the register program doubles the point, and leaves it alone when Z is zero |
| CoZ.XYcZInitialDouble | components/micro-ecc/micro-ecc/uECC.c:766-787 | 2P and P over one Z, from the given starting Z or from one |
| CoZMeaning.AddStepMeans | components/micro-ecc/micro-ecc/uECC.c:794-820 | P and P + Q over Z' = Z (X2 - X1), for any slope through the two points; sub is the new difference of abscissas |
| CoZMeaning.AddCStepMeans | components/micro-ecc/micro-ecc/uECC.c:826-861 | P - Q and P + Q over Z', for either sign of sub |
| CoZMeaning.ApplyZMeans | components/micro-ecc/micro-ecc/uECC.c:753-763 | scaling by z multiplies the points' common Z by z |
| CoZMeaning.DoubleMeans | components/micro-ecc/micro-ecc/curve-specific.inc:50-95 | the doubling formulas hold for the values the registers stand for |
| DoubleMeaning.DoubleTangent | components/micro-ecc/micro-ecc/curve-specific.inc:50-95 | doubling is the tangent rule of a curve with a = -3, over z3 = y z |
| DoubleMeaning.DoubleOnCurve | components/micro-ecc/micro-ecc/curve-specific.inc:50-95 | the doubled coordinates satisfy y^2 = x^3 - 3 x z^4 + b z^6 |
| DoubleMeaning.DoubleKeepsCurve | components/micro-ecc/micro-ecc/curve-specific.inc:50-95 | registers on the curve stay on the curve |
| Ladder.AddStepInGroup | components/micro-ecc/micro-ecc/uECC.c:794-820 | over any group with the chord rule: u stays and v becomes u + v |
| Ladder.AddCStepInGroup | components/micro-ecc/micro-ecc/uECC.c:826-861 | over any group with the chord and negation rules: u - v and u + v |
| Ladder.StartMeans | components/micro-ecc/micro-ecc/uECC.c:882-883 | after the initial doubling R0 is P and R1 is 2P over one Z, with their difference of abscissas in sub |
| Ladder.LadderStepMeans | components/micro-ecc/micro-ecc/uECC.c:885-889 | a step takes m P, (m + 1) P to (2m + bit) P, (2m + bit + 1) P |
| Ladder.ClimbMeans | components/micro-ecc/micro-ecc/uECC.c:885-889 | throughout the loop R0 = m P and R1 = (m + 1) P, m the bits read so far under an implicit one |
| Ladder.InvertedValue | components/micro-ecc/micro-ecc/uECC.c:895-897 | for either last bit the inverted value has the same form: the sign of Yb cancels the sign of X1 - X0 |
| Ladder.FinalZMeans | components/micro-ecc/micro-ecc/uECC.c:894-901 | the recovered z times the Z left by the closing addition is 1 |
| Ladder.FinalStepMeans | components/micro-ecc/micro-ecc/uECC.c:891-907 | the last step and the division give affine coordinates when the base point's abscissa is a unit; Exceptional.ZeroAbscissaFails has the other case |
| Ladder.MultiplyMeans | components/micro-ecc/micro-ecc/uECC.c:864-908 | the result is the scalar, read under an implicit leading one, times P when P's abscissa is a unit; Exceptional.ZeroAbscissaFails has the other case |
| LadderWords.LadderStepWords | components/micro-ecc/micro-ecc/uECC.c:886-888 | the loop body on the register arrays, chosen by nb |
| LadderWords.FinalZWords | components/micro-ecc/micro-ecc/uECC.c:894-901 | the final 1/Z computed in place |
| LadderWords.ClimbWords | components/micro-ecc/micro-ecc/uECC.c:885-889 | the loop over the bits equals the ladder of the lemmas |
| LadderWords.EccPointMult | components/micro-ecc/micro-ecc/uECC.c:864-908 | the whole routine on word arrays equals the multiplication of the lemmas, result allowed to be the point |
| Scalar.RegularizeK | components/micro-ecc/micro-ecc/uECC.c:910-921 | k0 or k1 as the flag says holds k + n or k + 2n, less at most the bit that does not fit |
| Scalar.RegularizedTop | components/micro-ecc/micro-ecc/uECC.c:910-921 | bit num_n_bits is the top bit of the chosen scalar |
| Scalar.PrefixIsDown | components/micro-ecc/micro-ecc/uECC.c:885-891 | the bits read under the implicit one are the leading bits of the chosen scalar |
| Scalar.ExceptionalKeys | components/micro-ecc/micro-ecc/uECC.c:885-921 | on secp160r1 every ladder step is unexceptional exactly when the key is none of 0, 1, n - 2, n - 1 |
| Exceptional.StepCollapses | components/micro-ecc/micro-ecc/uECC.c:885-889 | a step on opposite points leaves (t^2, t^3) and (0, 0) |
| Exceptional.FinalStepZero | components/micro-ecc/micro-ecc/uECC.c:891-907 | from there the result is (0, 0) |
| ExactZero.StepExact | components/micro-ecc/micro-ecc/uECC.c:885-889 | products sound, such a step leaves one of the two points exactly (0, 0), not the modulus |
| ExactZero.FinalStepExact | components/micro-ecc/micro-ecc/uECC.c:891-907 | from there a sound result is exactly (0, 0) |
| Exceptional.ZeroAbscissaFails | components/micro-ecc/micro-ecc/uECC.c:864-908 | from a base point with abscissa zero every scalar gives (0, 0), whichever the reduction |
| KeyMultiply.KeyMultiplyMeans | components/micro-ecc/micro-ecc/uECC.c:910-957 | for every other key below n and every point of order n whose abscissa is a unit the result is k P in affine coordinates |
| KeyMultiply.ExceptionalKeyFails | components/micro-ecc/micro-ecc/uECC.c:910-957 | for the keys 0, 1, n - 2, n - 1 both coordinates are 0 modulo p |
| KeyMultiply.ExceptionalKeyExact | components/micro-ecc/micro-ecc/uECC.c:910-957 | products sound, the result for these keys is exactly (0, 0), whichever the reduction |
| Products.GeneralReductionSound | components/micro-ecc/micro-ecc/uECC.c:622-633 | with uECC_vli_mmod as the reduction no result can be unsound |
| Products.SoundUnlessGap | components/micro-ecc/micro-ecc/uECC.c:864-908 | a multiplication of sound inputs whose result is unsound formed a product in the gap; every product of the run is listed |
| PublicKey.MultiplyByKey | components/micro-ecc/micro-ecc/uECC.c:949-976 | regularize, multiply, report a zero result; also the core of the shared secret |
| PublicKey.SharedSecretAgrees | components/micro-ecc/micro-ecc/uECC.c:1051-1094 | each side multiplying the other's point, abscissa zero included, by any reduction: products sound, two sides that both report success hold congruent abscissas, the same one when it is a unit; with an exact reduction the same one in any case |
| PublicKey.FailsExactly | components/micro-ecc/micro-ecc/uECC.c:949-976 | by any reduction, products sound, the zero result is reported exactly for the keys 0, 1, n - 2, n - 1 and for points with abscissa zero; in exactly these cases the result is not k P; an unsound result means that some product of the run lay in the gap |
| PublicKey.SuccessMeans | components/micro-ecc/micro-ecc/uECC.c:949-976 | products sound, a multiplication reported as successful gave k P |
| PublicKey.VanishesExactly | components/micro-ecc/micro-ecc/uECC.c:910-957 | with any reduction, products sound, the result is zero modulo p exactly in those cases, and k P in all others |
| PublicKey.ZeroAbscissaOnCurve | components/micro-ecc/micro-ecc/uECC.c:1135-1156 | secp160r1 has a point with abscissa zero and coordinates below p |
| PublicKey.GeneratorRegular | components/micro-ecc/micro-ecc/curve-specific.inc:149-156 | the generator lies on the curve and has unit coordinates below p |
| PublicKey.CurveTable | components/micro-ecc/micro-ecc/curve-specific.inc:139-160 | p, n, the generator and b are the numbers the words of the curve's table spell |
| Crc.Crc16Linear | main/src/river2_crc.c:39-49 | the CRC-16 of a difference of equally long strings is the difference of the CRCs |
| Polynomials.Crc16IsRemainder | main/src/river2_crc.c:18-22 | CRC-16, its bits reversed, is the remainder of the message times x^16 divided by x^16 + x^15 + x^2 + 1 |
| Polynomials.Crc8IsRemainder | main/src/river2_crc.c:11-16 | CRC-8 is the remainder of the message times x^8 divided by x^8 + x^2 + x + 1 |
| Polynomials.RemainderUnique | main/src/river2_crc.c:9-25 | a division has only one remainder |
| Polynomials.Codewords16 | main/src/river2_crc.c:39-49 | the strings with CRC-16 zero are exactly the multiples of that polynomial |
| Polynomials.Codewords8 | main/src/river2_crc.c:27-37 | and the same for CRC-8 |
| Crc.Crc16Injective | main/src/river2_crc.c:39-49 | bytes fed to different registers leave different registers |
| Crc.TableStep | main/src/river2_crc.c:46-47 | a table lookup and a shift are eight single-bit steps |
| Crc.ResidueZero | main/src/river2_crc.c:39-49 | a string ends in its own CRC exactly when the CRC of the whole is zero |
| Crc.AdjacentBytesDetected | main/src/river2_crc.c:39-49 | any change within two adjacent bytes changes the CRC-16 |
| Crc.Tables.BuildTables | main/src/river2_crc.c:9-25 | both tables hold eight single-bit steps of their index |
| Crc.Tables.ComputeCrc8 | main/src/river2_crc.c:27-37 | the table-driven CRC-8 equals the bit-by-bit one, tables built on first use |
| Crc.Tables.ComputeCrc16 | main/src/river2_crc.c:39-49 | the table-driven CRC-16 equals the bit-by-bit one, tables built on first use |
| Packet.InnerBuild | main/src/river2_packet.c:26-53 | 0 and nothing written when out is too small, otherwise exactly the packet and nothing beyond it |
| Packet.InnerLayout | main/src/river2_packet.c:34-50 | every byte of a built packet by its position: prefix, version, length, CRC-8, product, zeros, addresses, command, payload, CRC-16 |
| Packet.InnerParse | main/src/river2_packet.c:55-80 | accepts and reads exactly as the parsing function on the same bytes |
| Packet.ParsesExactly | main/src/river2_packet.c:55-80 | the accepted strings are exactly those of the builder's form with a 16-bit length |
| Packet.InnerRoundTrip | main/src/river2_packet.c:26-80 | parsing a built packet returns it exactly when the payload is shorter than 65536 bytes |
| Packet.AcceptedResidue | main/src/river2_packet.c:68-71 | an accepted packet has CRC-16 zero |
| Packet.CorruptedRejected | main/src/river2_packet.c:55-71 | no string differing from an accepted packet only within two adjacent bytes is accepted |
| Packet.OuterBuild | main/src/river2_packet.c:82-101 | 0 and nothing written when out is too small, otherwise exactly the frame |
| Packet.OuterLayout | main/src/river2_packet.c:90-98 | every byte of a built frame by its position |
| Stream.ExtractIsScan | main/src/river2_packet.c:140-212 | a call of extract takes the first frame of a left-to-right parse or leaves exactly its leftover |
| Stream.ScanConcat | main/src/river2_packet.c:140-212 | parsing a stream in two parts is parsing it whole |
| Stream.Resynchronises | main/src/river2_packet.c:165-186 | a prefix with a bad length or a CRC that differs costs exactly its two bytes, however much is buffered |
| Stream.Accepts | main/src/river2_packet.c:188-210 | a complete frame with a good CRC is delivered and parsing goes on after it |
| Stream.LeftoverShape | main/src/river2_packet.c:140-186 | only the start of a prefix or a plausible incomplete frame is kept |
| Stream.BuiltFrame | main/src/river2_packet.c:82-101 | a built frame is recognised whatever follows it |
| Stream.FrameRoundTrip | main/src/river2_packet.c:82-212 | a built frame comes back exactly when its type has four bits and its payload at most 4094 bytes |
| Stream.WireRoundTrip | main/src/river2_packet.c:82-212 | frames separated by quiet gaps come back in order, none lost, repeated or invented |
| Stream.NoisyRoundTrip | main/src/river2_packet.c:82-212 | frames damaged within two adjacent payload bytes are lost, and all others come back in order, none repeated or invented |
| Stream.FramesAreSegments | main/src/river2_packet.c:140-212 | on any stream the frames are disjoint, ordered, CRC-valid segments of it |
| FrameBuf.FrameBuf.constructor | main/src/river2_packet.c:103-106 | an empty buffer with no room |
| FrameBuf.FrameBuf.Append | main/src/river2_packet.c:115-132 | the bytes are added, growing exactly as needed; a refused allocation leaves everything as it was |
| FrameBuf.FrameBuf.Consume | main/src/river2_packet.c:134-138 | the first n bytes go and the rest moves down |
| FrameBuf.FrameBuf.FindPrefix | main/src/river2_packet.c:148-155 | the first 5A5A pair, and there is none before it |
| FrameBuf.FrameBuf.Judge | main/src/river2_packet.c:165-186 | too short, implausible length, wrong CRC, or a frame |
| FrameBuf.FrameBuf.Deliver | main/src/river2_packet.c:188-210 | the payload is in scratch and the frame gone, or, memory refused, the frame stays |
| FrameBuf.FrameBuf.Extract | main/src/river2_packet.c:140-212 | the retry loop ends and does to buffer, capacity and scratch what the value-level function says |
| FrameBuf.AppendExactly | main/src/river2_packet.c:115-132 | an append fails exactly when it needs room and is refused it, and then changes nothing; the room grows to exactly what is needed |
| FrameBuf.ExtractExactly | main/src/river2_packet.c:140-212 | an extract hands out the first frame of the parse exactly when there is one and scratch has room for it or is given it |
| FrameBuf.RunConserves | main/src/river2_packet.c:115-212 | over every run, with any allocations refused: frames handed out and still buffered are the frames of the accepted bytes |
| FrameBuf.ChunkingInvariance | main/src/river2_packet.c:115-212 | once drained, frames and leftover depend only on the bytes, not on how they were split |
| FrameBuf.DeliveredInOrder | main/src/river2_packet.c:82-212 | frames sent with quiet gaps arrive in order under every splitting |
| FrameBuf.UndamagedDelivered | main/src/river2_packet.c:82-212 | with damaged frames among them the others arrive in order under every splitting |
| FrameBuf.MemoryBound | main/src/river2_packet.c:115-212 | in every run of either caller with R refusals of scratch memory, len and cap are at most 4613 + 512 R and scratch at most 4094 |
| FrameBuf.FoundNothing | main/src/river2_packet.c:140-212 | after a call that finds nothing at most 4101 bytes remain, unless scratch memory was refused, which leaves a frame buffered |
| FrameBuf.GrowsWhenRefused | main/src/river2_packet.c:115-212 | for every R a run of the callers' kind with R refusals that reaches 4613 + 512 R bytes, its frame undelivered |
| FrameBuf.BoundExactly | main/src/river2_packet.c:115-212 | 4613 bytes bound all runs with a given number of refusals exactly when that number is zero |
| Session.UnpadPad | main/src/river2_auth.c:125-136 | the padding check undoes PKCS7 padding |
| Session.UnpadExactly | main/src/river2_auth.c:125-136 | on whole blocks the check strips exactly PKCS7 padding and returns every other string unchanged |
| Session.PadLayout | main/src/river2_auth.c:46-78 | padding completes a block with one to sixteen bytes, each telling their number |
| Session.DecryptSealed | main/src/river2_auth.c:46-137 | decrypting an encrypted text returns it, or the size error when the padded text exceeds the buffer |
| Session.DecryptExactly | main/src/river2_auth.c:86-137 | whole blocks are decrypted if there is room, a size or PSA error otherwise, and bytes after the last whole block are ignored |
| Session.EndToEnd | main/src/river2_auth.c:86-209 | a packet survives build, pad, encrypt, frame, extract, decrypt, unpad and parse exactly when its payload has at most 237 bytes |
| Session.PacketsDelivered | main/src/river2_auth.c:86-209 | a sequence of packets sent with quiet gaps arrives and opens in order under every splitting |
| Session.EncryptPkcs7 | main/src/river2_auth.c:46-78 | the ciphertext of the padded text, or failure when it does not fit or PSA fails |
| Session.UnpaddedLength | main/src/river2_auth.c:125-136 | the scan finds the length that unpadding leaves |
| Session.SessionDecrypt | main/src/river2_auth.c:86-137 | nothing for less than a block, the size and PSA errors, otherwise the unpadded plaintext of the whole blocks |
| Session.SendFrame | main/src/river2_auth.c:178-188 | the frame handed to the BLE layer, or the size error for more than 592 bytes |
| Session.SendInnerEncrypted | main/src/river2_auth.c:190-209 | the sealed packet handed to the BLE layer, or the error of the first stage that fails: more than 282 bytes, PSA, the write |
| Handshake.SuccessPasses | main/src/river2_auth.c:247-497 | success means four milestones at increasing positions, each stated by the bytes of its frame and of those passed over, and nothing outside the stream failing |
| Handshake.MilestonesSuffice | main/src/river2_auth.c:247-497 | the four milestones, nothing else failing, are enough for success: the fourth is any packet that is not an 0x86 reply of the auth board, or one with the single byte zero |
| Handshake.RefusalReported | main/src/river2_auth.c:475-487 | an 0x86 reply with any other payload ends the handshake with an invalid state |
| Handshake.PublicKeyErrors | main/src/river2_auth.c:286-312 | the error for each way a public-key reply can be wrong |
| Handshake.SessionKeyErrors | main/src/river2_auth.c:346-368 | the error for each way a session-key reply can be wrong |
| Handshake.OutsideErrors | main/src/river2_auth.c:256-440 | a failure of key generation or of a write, and too long an id, is what is reported |
| Handshake.SilenceErrors | main/src/river2_auth.c:139-176 | without the frames a step waits for it ends in a timeout |
| Handshake.LongFrameErrors | main/src/river2_auth.c:391-396 | a data frame too long to decrypt ends the wait with the size error |
| Handshake.HonestDeviceAccepted | main/src/river2_auth.c:247-497 | an honest device is understood: the handshake succeeds, with the session keys the device derived, exactly when its answer is any packet but an 0x86 reply of the auth board, or code zero |
| Handshake.ClientFrames | main/src/river2_auth.c:262-447 | the four frames a successful client sent: a device reads in them the public key, the session-key request, the wake-up, and the digits of the digest of the user id followed by the serial number |
| Handshake.HonestStreamAccepted | main/src/river2_auth.c:247-497 | the same for its frames on the wire, with quiet gaps and anything after them |
| Handshake.VerdictStable | main/src/river2_auth.c:247-497 | frames arriving after the verdict do not change it |
| Handshake.StreamVerdictStable | main/src/river2_auth.c:139-176 | nor do bytes arriving after it |
| HandshakeRun.TakeFrame | main/src/river2_auth.c:146-155 | an extract takes the next frame of the stream; with memory granted it finds none only when none is buffered |
| HandshakeRun.WaitForFrame | main/src/river2_auth.c:139-176 | the next frame of the wanted type in the stream, those of other types skipped; otherwise a timeout because there is none, or the code of a failure of memory or a wait |
| HandshakeRun.AwaitData | main/src/river2_auth.c:382-409 | the loops that drop undecodable and unrelated packets stop at the first frame that ends the wait, or with the code of a failure of memory, PSA or a wait |
| HandshakeRun.ReadPublicKeyReply | main/src/river2_auth.c:281-317 | the interim keys, or the error of the first test that fails: too short or wrong type, unsupported curve, key cut short, shared secret refused |
| HandshakeRun.ReadSessionKeyReply | main/src/river2_auth.c:342-368 | the session keys from the decrypted random bytes and seed, or the error of the first stage that fails, PSA included |
| HandshakeRun.DeriveSessionKey | main/src/river2_auth.c:215-230 | MD5 of sixteen table bytes at the seed's position and the random bytes, or the bounds error |
| HandshakeRun.WriteHex | main/src/river2_auth.c:430-433 | the digest's uppercase hexadecimal digits in the 32 bytes of hex_payload, and a zero in the byte after them |
| HandshakeRun.PrintHex | main/src/river2_auth.c:432 | a call stores two digits and a terminator |
| HandshakeRun.HexRoom | main/src/river2_auth.c:430-433 | the sixteen calls stay inside the array exactly when it has 33 bytes or more |
| Handshake.HexInjective | main/src/river2_auth.c:430-433 | different digests give different digits |
| Handshake.HexDigits | main/src/river2_auth.c:430-433 | the digits are 0 to 9 and A to F, high half first |
| HandshakeRun.Exchange | main/src/river2_auth.c:327-341 | a command frame sent and the next command frame of the stream taken as its reply; otherwise the error of the write, a timeout because no reply came, or the code of a failure of memory or a wait |
| HandshakeRun.RunAuth | main/src/river2_auth.c:414-493 | step 4 ends as the verdict says, or with the code of a failure of memory, PSA or a wait; out_session is written only on success |
| HandshakeRun.RunWakeUp | main/src/river2_auth.c:373-410 | step 3 and what follows it end as the verdict says, or are cut short with the code of such a failure |
| HandshakeRun.AuthRun | main/src/river2_auth.c:247-497 | err, the frames sent and out_session are those of the verdict on the bytes that arrived, whatever the chunks; when memory, a PSA call or a wait fails it may be cut short with the code of such a failure instead; Ok is returned only when the verdict is Ok, and every other result leaves out_session alone |
| Telemetry.BatteryThrottled | main/src/river2_telemetry.c:76-84 | battery notifications are at least the interval apart |
| Telemetry.RoundsAreStream | main/src/river2_telemetry.c:42-103 | state and notifications depend only on the bytes that arrive, not on the chunks |
| Telemetry.Task.HandlePacket | main/src/river2_telemetry.c:69-102 | byte 14 of a battery heartbeat, bytes 66 and 56 of an MPPT heartbeat, read as signed numbers, are published; the battery bit is sent when its time has come, the AC and DC bits exactly when the value changed; other packets do nothing |
| Telemetry.PublishedLast | main/src/river2_telemetry.c:42-103 | over any frames the published values are those bytes of the last heartbeats that have them, -1 before the first |
| Telemetry.Task.HandleFrame | main/src/river2_telemetry.c:52-102 | command frames, undecryptable and undecodable frames change nothing, nor does a frame on which PSA fails |
| Telemetry.Task.Drain | main/src/river2_telemetry.c:49-103 | the drain loop takes the frames of the parse in order, all of them if memory is granted at the end, and handles those on which PSA works |
| Telemetry.Task.Round | main/src/river2_telemetry.c:42-103 | one wait, append and drain, after any failures before: the frames extracted are the first of the parse, all of them if memory was granted at the end, and those on which PSA works are handled in order; a failed wait or append changes nothing |
| Telemetry.Task.Serve | main/src/river2_telemetry.c:36-104 | over any number of turns, any of them failing: the frames extracted are the first of the parse of the bytes appended, all of them once an extract is granted its memory and finds none, and exactly those on which PSA worked are handled, in order |
| Owner.RunKeeps | main/src/app_main.c:129-172 | in every interleaving an unread published value is announced by a bit pending, gathered or about to be tested |
| Owner.OwnerUpToDate | main/src/app_main.c:129-172 | with no bit pending and no task mid-step the owner's last-read AC and DC values are the published ones |
| Owner.RestReached | main/src/app_main.c:129-172 | the two tasks alone come to rest, within a number of steps fixed by the state |
| Owner.StepsAreHandler | main/src/river2_telemetry.c:66-102 | the interleaved steps for any packet publish and announce what the packet handler computes |
| Owner.RunFollows | main/src/river2_telemetry.c:42-103 | in every interleaving that takes the heartbeats of the frames in order, what the telemetry task publishes is what the handler makes of the frames |
| Owner.OwnerFollowsFrames | main/src/app_main.c:129-172 | and at rest the owner has read the AC and DC values those frames carry: bytes 66 and 56 of the last MPPT heartbeats |
| Owner.StepsAreLoop | main/src/app_main.c:129-172 | the owner's interleaved steps, undisturbed, are the loop's body |
| Owner.Loop.HandleToggles | main/src/app_main.c:145-172 | a toggle commands the opposite of the known state, and nothing while it is unknown; the state is the commanded one if the command is accepted, and unchanged otherwise |
| Owner.Loop.HandleBits | main/src/app_main.c:129-172 | telemetry bits are handled before toggles; a toggle commands the opposite of the known state, and nothing while it is unknown; the booleans afterwards |

## Left out

- ble_client.c, pushbutton.c and config.c: BLE host, buttons and stored settings; only chunks, button events and the settings the handshake uses appear.
- river2_ecdh.c and river2_commands.c: thin wrappers with fixed constants; key generation and the shared secret enter the handshake as parameters.
- PSA, AES rounds, MD5, the random number generator, esp_timer and logging.
- ECDSA, deterministic signing, HMAC, point compression, square roots and public-key validation of micro-ecc.
- The 1-byte and 8-byte word builds, the assembly paths and the other curves' reductions: they repeat these proofs.
- Side channels and constant-time claims.
- Primality of p and n: orders and unit ordinates are hypotheses instead.
- uECC_vli_bytesToNative and uECC_vli_nativeToBytes: byte order of keys and secrets.
- wordcount_t and bitcount_t as 8- and 16-bit types: word and bit counts are unbounded.
- VliMult.Mult: the two loops over growing and shrinking columns are one loop with two ranges of i.
- VliMod.ReduceRound: the subtraction written out in the source is a call of Sub.
- PublicKey.MultiplyByKey: the starting Z is a parameter, a separate array, instead of a random number in the unused scalar buffer.
- FrameBuf.FrameBuf.Extract: cap and scratch_cap are the array lengths, and the returned pointer is the first bytes of scratch.
- Session.EncryptPkcs7: the PSA output buffer rule is taken to be that the padded text fits.
- HandshakeRun.WaitForFrame: deadlines are waits that may fail at any time, not readings of a clock.
- HandshakeRun.AuthRun: of several failures of memory, PSA and waits, which one gives the code is not stated.
- HandshakeRun.WriteHex: what the byte after hex_payload belongs to in the stack frame is not modelled.
- Telemetry.Task.HandlePacket: times are unbounded integers instead of int64.
- Owner.Loop.HandleBits: results of the two commands are parameters; connecting, before the loop, is not modelled.
- The endless loops of the telemetry task and the owner: any number of turns of the first (Telemetry.Task.Serve), the body of the second and runs of it in lemmas.
