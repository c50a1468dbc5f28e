# Proofs about the hard parts of sea-pkg

A Dafny model of the arithmetic, the codecs and the state machines of sea-pkg, a Go library for blockchain software. The model
keeps the branches, limits and error cases of the Go code. Where that code updates things in place, so do the methods here, and
each such method is proved against a function or a predicate about which the lemmas then speak.

One module a file:

- **secp256k1** (`crypto/ecdsa`). `FieldValues` holds the ten-limb field elements with their carries and magnitudes, down to the
  64-bit intermediates; `FieldWords`, `FieldColumns`, `FieldReduction`, `FieldNormalForm`, `FieldBytes` and `Fermat` hold the
  arithmetic behind them. `JacobianPoints` has the point routines, with results that may share storage with operands, over the
  numbers of `FieldElements`, which `FieldRefinement` ties to the limbs; `PointValues` says what these routines compute and
  exactly when that is the formula they stand for; `CurveFormulas` relates the formulas to each other and to the chord and
  tangent of the affine curve, `PointLosses` the results; `AffinePoints` leads back to affine coordinates. `Naf` and
  `ScalarMultiplication` have the recoding, the split of the scalar and the double-and-add loop, over any abelian group
  (`Groups`).
- **RLP** (`util/serialize/rlp`). `RlpFormat` defines the encoding of a tree of byte strings and lists, and what a header says.
  `RlpSizes`, `RlpBuffers` and `RlpEncoder` have the buffer with deferred list headers and the resumable reader, `RlpRaw` the
  splitters of slices, `RlpPositions` and `RlpStream` the stream with its stack of open lists, `RlpDecoder` the decoder of values.
- **Shamir sharing** (`crypto/galois`). `GaloisTables` has the tables, `GaloisField` the field they make, `Polynomials`,
  `Interpolation` and `Shamir` the rest; `ShamirSecrecy` says what too few shares tell.
- **Decimals** (`util/decimal`). `DecimalDigits`, `LeftCheats`, `DecimalCut` and `DecimalShift` have the multi-precision binary
  shift of a decimal with its table of powers of five; `Decimals` addition, comparison, division and rounding; `DecimalOverflow`
  and `DecimalRounding` what the int32 exponents do when they wrap around.
- **Keccak sponge** (`crypto/sha3`): `SpongeFunctions` and `Sponges`. **Base58** (`crypto/base58`): `Base58`. **Mnemonics**
  (`crypto/bip39`): `Words` and `Mnemonics`. **Hierarchical keys** (`crypto/bip32`): `HdKeys`. **BER to DER**
  (`crypto/sm2/ber.go`): `BerObjects` and `BerTranscoder`.
- **Certificate chains** (`crypto/sm2/verify.go`, `crypto/sm2/cert_pool.go`): `Certificates`, `CertPools`, `ChainSearch` (the
  search as a function), `ChainBuilding` (the methods that carry it out), `ChainCompleteness` and `ChainResults` (what it finds
  and what it misses) and `ChainFailures` (four searches that miss a chain).

`Wrappers`, `Bytes`, `Division`, `Powers` and `Radix` hold what several of these share.

## Where the code does not do what its comments say

Each of these is a lemma or a contract that says for which inputs the promise holds, in both directions, and one that names an
input for which it does not.

- `Normalize` drops a carry out of its last limb (`crypto/ecdsa/ecdsa_field.go:243-244`). It yields the residue exactly when one
  folding of the value fits in 256 bits: `FieldNormalForm.NormalizeIsResidue`; not for `FieldNormalForm.NormalizeLosesCarry`.
- So the point routines are wrong where such a carry is lost and matters: `PointValues.AddedRight`, `PointValues.DoubledRight`
  and the lemmas for the single routines say exactly where. `PointLosses.AddLosesCarry` has two points of the curve, of x
  coordinates 1 and 0x800001EA, whose sum comes out as another point.
- `QuoRem` computes exponents in int32 and checks them for overflow afterwards, when they have wrapped around already
  (`util/decimal/decimal.go:477-480`). `DecimalOverflow.QuoRemExact` says which operands it divides correctly and
  `DecimalRounding.DivRoundExact` which operands `DivRound` rounds correctly; `DecimalRounding.QuotientOverflows` and
  `DecimalRounding.RoundingOverflows` have others.
- `Round` and `RoundBank` negate the number of places in int32. At the least int32 the exponent of the result is wrong:
  `Decimals.RoundIsNearest`, `Decimals.RoundBank`, with 10^(2^31) in `Decimals.LeastPlacesOverflow`.
- `clone` of a sponge that is squeezing looks for the buffer at the end of the storage (`crypto/sha3/sha3.go:65`). The copy goes
  on too early by what the rate lacks to the whole storage: `Sponges.Sponge.Clone`, with rate 136 in `Sponges.CloneRepeats`.
- Private and public derivation of a child key fail on different inputs: `HdKeys.DerivationsSucceed`, in a small system of keys
  in `HdKeys.DerivationsDiffer`.
- `buildChains` remembers for an intermediate that it found nothing, whatever the chain it was found behind
  (`crypto/sm2/verify.go:380-387`), so that `Verify` refuses leaves that have a chain. It does not if there is no path length
  limit, no root is an intermediate too and no intermediate is there twice: `ChainResults.FailureIsFinal`. Without any one of
  these it does: `ChainFailures.RootLimitHides`, `ChainFailures.IntermediateLimitHides`, `ChainFailures.RootInPoolHides`,
  `ChainFailures.TwinHides`.

## Model

| member | source | states |
|---|---|---|
| `FieldValues.FieldVal.SetBytes` | crypto/ecdsa/ecdsa_field.go:136-161 | the limbs stand for the big-endian number of the 32 bytes, unreduced, each in its range |
| `FieldValues.FieldVal.PutBytes` | crypto/ecdsa/ecdsa_field.go:324-358 | the bytes are those of the number the limbs stand for |
| `FieldBytes.SetBytesValue` | crypto/ecdsa/ecdsa_field.go:137-159 | the shifts and masks that cut 32 bytes into ten limbs keep the number |
| `FieldBytes.PutBytesValue` | crypto/ecdsa/ecdsa_field.go:325-357 | the shifts and masks that cut ten limbs into 32 bytes keep the number |
| `FieldBytes.BytesRoundTrip` | crypto/ecdsa/ecdsa_field.go:136-358 | writing what was read from 32 bytes gives them back |
| `FieldValues.FieldVal.SetInt` | crypto/ecdsa/ecdsa_field.go:129-133 | the value is the integer modulo 2^32, in the lowest limb |
| `FieldValues.FieldVal.Set` | crypto/ecdsa/ecdsa_field.go:122-125 | the limbs become those of the other value, also of the same object |
| `FieldValues.FieldVal.Normalize` | crypto/ecdsa/ecdsa_field.go:186-319 | from magnitude up to 63: limbs in range; the value is the residue modulo the prime if and only if folding the overflow once leaves less than 2^256 |
| `FieldNormalForm.NormalizeIsResidue` | crypto/ecdsa/ecdsa_field.go:186-319 | the number Normalize computes is the residue if and only if (v mod 2^256) + (v div 2^256) * (2^32 + 977) is below 2^256 |
| `FieldNormalForm.NormalizeLoses` | crypto/ecdsa/ecdsa_field.go:186-319 | otherwise it is the residue of the value less 2^32 + 977, the lost carry |
| `FieldNormalForm.NormalizeLosesCarry` | crypto/ecdsa/ecdsa_field.go:243-244 | limbs of magnitude 2 for which the dropped carry makes the result wrong |
| `FieldNormalForm.MagnitudeOneIsSafe` | crypto/ecdsa/ecdsa_field.go:243-244 | no carry is lost from limbs of magnitude 1, which all products have |
| `FieldNormalForm.CarryPass` | crypto/ecdsa/ecdsa_field.go:186-208 | one pass of carries keeps the value, up to the part above 2^256 that it returns |
| `FieldNormalForm.FoldOnce` | crypto/ecdsa/ecdsa_field.go:186-244 | the value folded once, modulo 2^256 |
| `FieldNormalForm.SubtractPrime` | crypto/ecdsa/ecdsa_field.go:246-319 | a value below 2^256 becomes its residue modulo the prime |
| `FieldValues.FieldVal.Equals` | crypto/ecdsa/ecdsa_field.go:386-394 | true exactly for equal limbs, which for normalized values means equal numbers |
| `FieldValues.FieldVal.IsZero` | crypto/ecdsa/ecdsa_field.go:369-375 | true exactly if the number is zero |
| `FieldValues.FieldVal.NegateVal` | crypto/ecdsa/ecdsa_field.go:398-417 | (magnitude + 1) * P minus the value, no limb underflows, and the magnitude grows by one |
| `FieldValues.FieldVal.Negate` | crypto/ecdsa/ecdsa_field.go:421-423 | the same in place |
| `FieldValues.FieldVal.Add` | crypto/ecdsa/ecdsa_field.go:437-451 | the sum; magnitudes add up; also when the operand is the receiver |
| `FieldValues.FieldVal.Add2` | crypto/ecdsa/ecdsa_field.go:456-470 | the sum of two values, with any aliasing |
| `FieldValues.FieldVal.MulInt` | crypto/ecdsa/ecdsa_field.go:474-489 | the multiple; the magnitude is multiplied; no limb overflows |
| `FieldValues.FieldVal.Mul2` | crypto/ecdsa/ecdsa_field.go:501-739 | for operands of magnitude up to 8 no 64-bit intermediate overflows, the result is the one number that the foldings make of the product, congruent to it, and its limbs have magnitude 1 |
| `FieldValues.FieldVal.Mul` | crypto/ecdsa/ecdsa_field.go:494-496 | the same in place |
| `FieldValues.FieldVal.SquareVal` | crypto/ecdsa/ecdsa_field.go:750-924 | the same for squares, by the shorter sums of doubled terms |
| `FieldValues.FieldVal.Square` | crypto/ecdsa/ecdsa_field.go:743-745 | the same in place |
| `FieldValues.SquareLikeMul` | crypto/ecdsa/ecdsa_field.go:750-924 | SquareVal(v) has the very limbs of Mul2(v, v) |
| `FieldColumns.ColumnsAreProduct` | crypto/ecdsa/ecdsa_field.go:501-680 | the nineteen column sums of products of limbs make up the product of the values |
| `FieldColumns.SquareColumnsAreSquare` | crypto/ecdsa/ecdsa_field.go:750-880 | the column sums with doubled cross terms make up the square |
| `FieldReduction.ReductionIsUnique` | crypto/ecdsa/ecdsa_field.go:681-739 | the two foldings determine the ten limbs |
| `FieldReduction.ReductionIsCongruent` | crypto/ecdsa/ecdsa_field.go:681-739 | the two foldings keep the residue and leave limbs of magnitude 1 |
| `FieldReduction.ReductionValue` | crypto/ecdsa/ecdsa_field.go:681-739 | the limbs stand for the number that two foldings of the product make, carries included |
| `FieldValues.FieldVal.Inverse` | crypto/ecdsa/ecdsa_field.go:928-1024 | the power P - 2 of a value of magnitude up to 8, modulo the prime |
| `FieldValues.FieldVal.Climb` | crypto/ecdsa/ecdsa_field.go:978-1023 | the ladder of five squarings and a product takes exponent 63 to P - 2 |
| `Fermat.LittleTheorem` | crypto/ecdsa/ecdsa_field.go:926-928 | if P is prime, the power P - 1 of every number that P does not divide is 1 |
| `Fermat.InversePower` | crypto/ecdsa/ecdsa_field.go:926-1024 | so what Inverse computes is the inverse |
| `FieldRefinement.Mul2` | crypto/ecdsa/ecdsa_field.go:501-739 | the limbs of a product stand for the number that the point routines reckon with, exactly |
| `FieldRefinement.SquareVal` | crypto/ecdsa/ecdsa_field.go:750-924 | the same for squares |
| `FieldRefinement.Normalize` | crypto/ecdsa/ecdsa_field.go:186-319 | the same for Normalize, its lost carry included |
| `FieldRefinement.NegateVal` | crypto/ecdsa/ecdsa_field.go:398-417 | the same for negation |
| `FieldRefinement.Add2` | crypto/ecdsa/ecdsa_field.go:456-470 | the same for sums |
| `FieldRefinement.MulInt` | crypto/ecdsa/ecdsa_field.go:474-489 | the same for multiples |
| `FieldElements.NormalEquality` | crypto/ecdsa/ecdsa_field.go:386-394 | normalized values are equal exactly if the polynomials they stand for, less the carries lost, are congruent |
| `PointValues.OnesRight` | crypto/ecdsa/ecdsa_s256.go:100-112 | the steps for z = 1 give the formula if and only if none of the three last calls of Normalize loses a carry |
| `PointValues.SameZRight` | crypto/ecdsa/ecdsa_s256.go:133-149 | the steps for equal z: if and only if x loses none, and what y loses and what the inner value loses, times the difference of the y coordinates, cancel modulo the prime |
| `PointValues.MixedRight` | crypto/ecdsa/ecdsa_s256.go:174-192 | the mixed steps, if and only if no coordinate loses a carry |
| `PointValues.GenericRight` | crypto/ecdsa/ecdsa_s256.go:215-233 | the general steps, if and only if x and y lose none |
| `PointValues.DoublingRight` | crypto/ecdsa/ecdsa_s256.go:284-328 | the doubling steps, if and only if x and z lose none, and what y loses and what the inner value loses, times three times the square of x, cancel |
| `PointValues.DoubledRight` | crypto/ecdsa/ecdsa_s256.go:330-344 | so doubling a finite point is right exactly then, for z = 1 or not |
| `PointValues.EqualXIsRight` | crypto/ecdsa/ecdsa_s256.go:88-99 | points of equal x are doubled, right exactly where doubling is, or give infinity |
| `PointValues.AddOnesRight` | crypto/ecdsa/ecdsa_s256.go:81-113 | addition for z = 1 gives the formula, or the double, exactly if no carry is lost that matters, or infinity |
| `PointValues.AddSameZRight` | crypto/ecdsa/ecdsa_s256.go:116-150 | addition for equal z, in the same way |
| `PointValues.AddMixedRight` | crypto/ecdsa/ecdsa_s256.go:154-193 | mixed addition, in the same way |
| `PointValues.AddGenericRight` | crypto/ecdsa/ecdsa_s256.go:196-234 | general addition, in the same way |
| `PointValues.AddedRight` | crypto/ecdsa/ecdsa_s256.go:237-266 | whichever routine addJacobian picks for two finite points: their sum, or the double of equal points, comes out exactly if no carry is lost that matters; a point and its negative give infinity |
| `PointValues.SumOfIsSum` | crypto/ecdsa/ecdsa_s256.go:237-266 | the formula of the routine picked is the general sum, up to scaling |
| `PointLosses.CallersAreKept` | crypto/ecdsa/ecdsa_s256.go:445-521 | no carry is lost from the operands themselves: results of the routines, numbers below 2^256, and their negatives |
| `PointLosses.AddedIsChord` | crypto/ecdsa/ecdsa_s256.go:237-266 | where no carry is lost that matters, what addJacobian leaves represents the third point of the chord |
| `PointLosses.DoubledIsTangent` | crypto/ecdsa/ecdsa_s256.go:330-344 | and what doubleJacobian leaves, that of the tangent |
| `PointLosses.AddLosesCarry` | crypto/ecdsa/ecdsa_s256.go:95-112 | two points of the curve for which z loses a carry and the result represents another point than their sum |
| `JacobianPoints.AddZ1AndZ2EqualsOne` | crypto/ecdsa/ecdsa_s256.go:81-113 | step by step, under any aliasing of slots and within the magnitudes allowed, the coordinates of PointValues.AddOnes of the old operands; what becomes of the operands |
| `JacobianPoints.AddZ1EqualsZ2` | crypto/ecdsa/ecdsa_s256.go:116-150 | those of PointValues.AddSameZ, in the same way |
| `JacobianPoints.AddZ2EqualsOne` | crypto/ecdsa/ecdsa_s256.go:154-193 | those of PointValues.AddMixed, in the same way |
| `JacobianPoints.AddGeneric` | crypto/ecdsa/ecdsa_s256.go:196-234 | those of PointValues.AddGeneric, in the same way |
| `JacobianPoints.AddJacobian` | crypto/ecdsa/ecdsa_s256.go:237-266 | the other operand if one is infinity, else those of PointValues.Added; operands that are not outputs are as they were or normalized |
| `JacobianPoints.EqualX` | crypto/ecdsa/ecdsa_s256.go:88-99 | the point doubled, or infinity |
| `JacobianPoints.DoubleGeneric` | crypto/ecdsa/ecdsa_s256.go:307-328 | the doubling steps with every operand within its magnitude, when results share storage with operands |
| `JacobianPoints.DoubleZ1EqualsOne` | crypto/ecdsa/ecdsa_s256.go:284-304 | the same at z = 1 |
| `JacobianPoints.DoubleJacobian` | crypto/ecdsa/ecdsa_s256.go:330-344 | infinity for y or z with zero limbs, else the doubling steps with z normalized |
| `CurveFormulas.OnesAreGeneric` | crypto/ecdsa/ecdsa_s256.go:81-113 | the formula for z = 1 gives the coordinates of the general one |
| `CurveFormulas.MixedIsGeneric` | crypto/ecdsa/ecdsa_s256.go:154-193 | the mixed formula gives the coordinates of the general one |
| `CurveFormulas.SameZIsScaled` | crypto/ecdsa/ecdsa_s256.go:116-150 | the general formula gives the result for equal z scaled by twice that z, so both are the same affine point |
| `CurveFormulas.GenericIsChord` | crypto/ecdsa/ecdsa_s256.go:196-234 | the general formula gives the third point of the chord through the two affine points |
| `CurveFormulas.SumIsChord` | crypto/ecdsa/ecdsa_s256.go:237-266 | so does every sum up to scaling, whichever formula made it |
| `CurveFormulas.DoubleIsTangent` | crypto/ecdsa/ecdsa_s256.go:307-328 | the doubling formula gives the third point of the tangent |
| `AffinePoints.JacobianToAffine` | crypto/ecdsa/ecdsa_s256.go:54-68 | x times the square and y times the cube of the power P - 2 of z, fully reduced; on limbs of magnitude up to 8 |
| `AffinePoints.AffineIsRepresented` | crypto/ecdsa/ecdsa_s256.go:54-68 | that is the same point, for every z with z^(P-1) = 1 modulo P |
| `AffinePoints.FinitePointIsRepresented` | crypto/ecdsa/ecdsa_s256.go:54-68 | that is, if P is prime, for every z that P does not divide |
| `AffinePoints.SlopeExists` | crypto/ecdsa/ecdsa_s256.go:237-266 | if P is prime, points of different x have a chord, and points of y other than zero a tangent |
| `AffinePoints.InfinityIsOrigin` | crypto/ecdsa/ecdsa_s256.go:54-68 | infinity becomes (0, 0) |
| `ScalarMultiplication.LatticeBasis` | crypto/ecdsa/ecdsa_s256.go:563-568 | the constants are vectors (a, b) with a + b * lambda divisible by N, with determinant N |
| `ScalarMultiplication.SplitBounds` | crypto/ecdsa/ecdsa_s256.go:359-380 | both halves of any scalar are less than 2^129 in size |
| `ScalarMultiplication.SplitRecombines` | crypto/ecdsa/ecdsa_s256.go:359-380 | k1 + k2 * lambda is congruent to the scalar modulo N |
| `ScalarMultiplication.SplitK` | crypto/ecdsa/ecdsa_s256.go:359-380 | bytes and signs of two such halves, for every byte string |
| `ScalarMultiplication.ModuloReduce` | crypto/ecdsa/ecdsa_s256.go:383-392 | at most 32 bytes with the same residue modulo N |
| `ScalarMultiplication.DoubleAndAdd` | crypto/ecdsa/ecdsa_s256.go:494-512 | one digit of both recodings: the multiples of both points are doubled and changed by the digits |
| `ScalarMultiplication.ScalarMultLoop` | crypto/ecdsa/ecdsa_s256.go:468-518 | after all bytes of the two recodings, padded to equal length, the point is the sum of both multiples |
| `ScalarMultiplication.SplitMultiple` | crypto/ecdsa/ecdsa_s256.go:445-467 | with an endomorphism of eigenvalue lambda the two half multiples make up k times the point |
| `ScalarMultiplication.ScalarMult` | crypto/ecdsa/ecdsa_s256.go:445-521 | k times the point, for every byte string k, in any abelian group of order N with such an endomorphism |
| `ScalarMultiplication.ScalarBaseMult` | crypto/ecdsa/ecdsa_s256.go:524-535 | k times the generator from the table of multiples by byte position |
| `Naf.RecodeByte` | crypto/ecdsa/ecdsa_s256.go:402-435 | one byte of the recoding with the carry in and out, looking ahead into the next byte |
| `Naf.Naf` | crypto/ecdsa/ecdsa_s256.go:395-442 | the two arrays hold the positive and the negative digits of the non-adjacent form, the final carry included |
| `Naf.NafValue` | crypto/ecdsa/ecdsa_s256.go:395-442 | the digits add up to the number |
| `Naf.NafDifference` | crypto/ecdsa/ecdsa_s256.go:395-442 | the number of one array minus that of the other is k |
| `Naf.NafIsNonAdjacent` | crypto/ecdsa/ecdsa_s256.go:395-442 | no bit is set in both arrays, and no two adjacent digits are set in either, across bytes too |
| `Naf.NonAdjacent` | crypto/ecdsa/ecdsa_s256.go:414-433 | of two digits in sequence one is zero |
| `RlpFormat.HeaderOfEncode` | util/serialize/rlp/decode.go:857-917 | the header read from an encoding is that of the value |
| `RlpFormat.HeaderIsHead` | util/serialize/rlp/decode.go:857-943 | any header accepted consists of the very bytes the encoder writes for its size |
| `RlpFormat.PrefixFree` | util/serialize/rlp/decode.go:857-917 | at most one value stands at the front of any bytes |
| `RlpFormat.AllInjective` | util/serialize/rlp/encode.go:458-476 | different sequences of values have different encodings |
| `RlpFormat.EncodeInjective` | util/serialize/rlp/encode.go:361-476 | different values have different encodings |
| `RlpFormat.NoSequence` | util/serialize/rlp/decode.go:289-316 | bytes at which no value starts are not the rest of any sequence |
| `RlpFormat.StartsWithHeader` | util/serialize/rlp/decode.go:857-917 | what follows a header in the encoding of a value |
| `RlpSizes.PutIntIsShortest` | util/serialize/rlp/encode.go:548-603 | the eight branches write the big-endian number without leading zeros |
| `RlpSizes.PutHead` | util/serialize/rlp/encode.go:123-131 | the header of the definition, short or long |
| `RlpSizes.IntSize` | util/serialize/rlp/encode.go:606-612 | the number of bytes of an integer, at least one |
| `RlpSizes.HeadSize` | util/serialize/rlp/encode.go:114-119 | the length of the header of the definition |
| `RlpBuffers.AppendGood` | util/serialize/rlp/encode.go:149-182 | data goes to the innermost open list only |
| `RlpBuffers.OpenGood` | util/serialize/rlp/encode.go:184-188 | opening a list adds an empty innermost content |
| `RlpBuffers.EndGood` | util/serialize/rlp/encode.go:190-197 | the size computed from offset and header sizes is the length of the innermost content, which moves to the enclosing list behind its header |
| `RlpBuffers.WholeBuffer` | util/serialize/rlp/encode.go:199-219 | with no list open, data and headers interleaved are the content, and its length is the size kept |
| `RlpEncoder.EncBuf.Append` | util/serialize/rlp/encode.go:149-152 | the content of the innermost open list grows, and the size with it |
| `RlpEncoder.EncBuf.List` | util/serialize/rlp/encode.go:184-188 | a new innermost list, empty |
| `RlpEncoder.EncBuf.ListEnd` | util/serialize/rlp/encode.go:190-197 | the innermost content, behind the header for its length, is appended to the enclosing one; the size grows by the header |
| `RlpEncoder.EncBuf.EncodeString` | util/serialize/rlp/encode.go:174-182 | the encoding of the string is appended |
| `RlpEncoder.EncBuf.WriteUint` | util/serialize/rlp/encode.go:361-375 | the encoding of the integer as shortest byte string is appended |
| `RlpEncoder.EncBuf.WriteItem` | util/serialize/rlp/encode.go:411-456 | the encoding of any tree is appended and the size grows by its length |
| `RlpEncoder.EncBuf.WriteSlice` | util/serialize/rlp/encode.go:458-476 | the encoding of a list of trees is appended |
| `RlpEncoder.EncBuf.AsBytes` | util/serialize/rlp/encode.go:203-219 | with all lists ended, exactly the content, in an array of the size kept |
| `RlpEncoder.Assemble` | util/serialize/rlp/encode.go:203-219 | copying data and headers in turn fills the array and stays inside it |
| `RlpEncoder.EncodeToBytes` | util/serialize/rlp/encode.go:70-78 | the recursive encoding of any tree |
| `RlpEncoder.EncReader.Next` | util/serialize/rlp/encode.go:279-310 | the next piece of data or header; nothing left once it runs out |
| `RlpEncoder.EncReader.Read` | util/serialize/rlp/encode.go:254-275 | fills the slice with the next bytes and no others; end of file exactly when nothing is left and the slice was not filled; so any reads add up to the encoding |
| `RlpEncoder.EncodeToReader` | util/serialize/rlp/encode.go:85-92 | the size of the encoding and a reader of all of it |
| `RlpRaw.ReadKindIsHeader` | util/serialize/rlp/raw.go:86-156 | accepts exactly complete values with the headers of the definition |
| `RlpRaw.SplitStringIsEncode` | util/serialize/rlp/raw.go:49-58 | accepted input is the encoding of the content and the rest; refused input starts with no string |
| `RlpRaw.SplitListIsHead` | util/serialize/rlp/raw.go:62-71 | accepted with given content and rest exactly if the input is the header, the content and the rest |
| `RlpRaw.SplitOfEncode` | util/serialize/rlp/raw.go:39-45 | an encoding in front of any rest is split from it |
| `RlpRaw.CountValues` | util/serialize/rlp/raw.go:74-84 | the loop counts the values up to the end or the first error |
| `RlpRaw.CountOfSequence` | util/serialize/rlp/raw.go:74-84 | a sequence of encodings is counted right |
| `RlpPositions.PendingCovers` | util/serialize/rlp/decode.go:711-723 | what open lists still need covers what is left of the innermost, which is never negative |
| `RlpPositions.LimitCovers` | util/serialize/rlp/decode.go:971-989 | in every sound state a read allowed by the list also is within the limit |
| `RlpPositions.ChargedSound` | util/serialize/rlp/decode.go:971-989 | an allowed read keeps positions within sizes and the limit sufficient |
| `RlpPositions.PushedSound` | util/serialize/rlp/decode.go:711-723 | so does entering a list that fits |
| `RlpPositions.PoppedSound` | util/serialize/rlp/decode.go:727-742 | so does leaving a list at its end |
| `RlpPositions.PushReadPop` | util/serialize/rlp/decode.go:711-742 | entering a list, reading it and leaving it amounts to reading its bytes |
| `RlpStream.Stream.constructor` | util/serialize/rlp/decode.go:583-587 | a stream over a slice is limited to its length or the limit given |
| `RlpStream.Stream.FromReader` | util/serialize/rlp/decode.go:778-811 | over another reader it is limited only if a limit is given |
| `RlpStream.Stream.ListStream` | util/serialize/rlp/decode.go:589-597 | for any length and slice: limited to the length, or for length 0 to the slice; what is ahead is a list header and the content, if the slice is long enough |
| `RlpStream.Stream.ListFromReader` | util/serialize/rlp/decode.go:589-597 | the same for other readers, without a limit for length 0 |
| `RlpStream.Stream.WillRead` | util/serialize/rlp/decode.go:971-989 | no error exactly if list and limit allow the read; which error; both are charged |
| `RlpStream.Stream.ReadFull` | util/serialize/rlp/decode.go:945-958 | exactly the next bytes, or a read error; never an error if list and limit allow and the input has them |
| `RlpStream.Stream.ReadByte` | util/serialize/rlp/decode.go:960-969 | exactly the next byte, in the same way |
| `RlpStream.Stream.ReadUint` | util/serialize/rlp/decode.go:919-943 | the big-endian number of the next bytes, without leading zero |
| `RlpStream.Stream.ReadKind` | util/serialize/rlp/decode.go:857-917 | the header at the front of the input, and nothing else, is read; when the definition has none, the error says whether bytes are missing or the size is not canonical |
| `RlpStream.Stream.NextKind` | util/serialize/rlp/decode.go:824-855 | reads a header once and answers from memory until the value is read; end of list exactly at the end; refuses exactly what is no complete value, with the error for what is wrong with it |
| `RlpStream.Stream.Bytes` | util/serialize/rlp/decode.go:602-623 | succeeds exactly if a string stands ahead, with its content, and moves behind it; else which error |
| `RlpStream.Stream.Raw` | util/serialize/rlp/decode.go:626-648 | the header and the content of the value ahead; else which error |
| `RlpStream.Stream.Uint` | util/serialize/rlp/decode.go:657-688 | succeeds exactly if the encoding of an integer of that width stands ahead, and yields it; else which error: too wide, leading zeros, not shortest, a list, or no complete value |
| `RlpStream.Stream.Bool` | util/serialize/rlp/decode.go:693-706 | accepts the encodings of 0 and 1 only |
| `RlpStream.Stream.List` | util/serialize/rlp/decode.go:711-723 | enters a list whose header stands ahead; exactly its content is then ahead; else which error |
| `RlpStream.Stream.ListEnd` | util/serialize/rlp/decode.go:727-742 | leaves the innermost list exactly if all of it has been read |
| `RlpStream.StringAhead` | util/serialize/rlp/decode.go:602-623 | how header and content decide whether a canonical string stands ahead |
| `RlpStream.UintAhead` | util/serialize/rlp/decode.go:657-688 | the same for integers: width, leading zeros, single bytes |
| `RlpDecoder.DecodeInterface` | util/serialize/rlp/decode.go:478-500 | ends on every stream; on one over a byte slice it takes off the encoding of the value that it returns, or there is none |
| `RlpDecoder.DecodeListSlice` | util/serialize/rlp/decode.go:274-287 | the same for a list |
| `RlpDecoder.DecodeSliceElems` | util/serialize/rlp/decode.go:289-316 | the trees whose encodings make up the rest of the list, or an error if there are none such |
| `RlpDecoder.DecodeBytes` | util/serialize/rlp/decode.go:87-101 | accepts exactly encodings, and yields the one tree that has the given encoding; an encoding with bytes behind it is refused as more than one value |
| `RlpDecoder.BytesIsSplitString` | util/serialize/rlp/decode.go:602-623 | Bytes of a stream and SplitString of the slice accept the same inputs, with the same content and rest |
| `GaloisTables.ExpStep` | crypto/galois/tables.go:44-76 | each entry is the one before times 0xe5, a linear map |
| `GaloisTables.ExpEnds` | crypto/galois/tables.go:44-76 | the orbit starts and ends with 1 |
| `GaloisTables.ExpOfLog` | crypto/galois/tables.go:8-41 | the two tables are inverse to each other |
| `GaloisTables.TimesGeneratorIsLinear` | crypto/galois/tables.go:44-76 | multiplication by the generator distributes over exclusive or |
| `GaloisField.MultIsIter` | crypto/galois/shamir.go:115-143 | multiplying by a is multiplying by the generator log a times |
| `GaloisField.MultComm` | crypto/galois/shamir.go:115-143 | multiplication commutes |
| `GaloisField.MultAssoc` | crypto/galois/shamir.go:115-143 | multiplication is associative |
| `GaloisField.MultDistributes` | crypto/galois/shamir.go:115-149 | multiplication distributes over addition on either side |
| `GaloisField.MultOne` | crypto/galois/shamir.go:115-143 | 1 is neutral |
| `GaloisField.NoZeroDivisors` | crypto/galois/shamir.go:115-143 | a product is zero only if a factor is |
| `GaloisField.DivTimes` | crypto/galois/shamir.go:85-112 | division panics exactly for divisor zero and undoes multiplication |
| `Polynomials.Evaluate` | crypto/galois/shamir.go:46-60 | Horner's loop and its shortcut at zero compute the polynomial |
| `Polynomials.QuotientIs` | crypto/galois/shamir.go:46-60 | any polynomial is a multiple of a linear factor plus its value at the root |
| `Polynomials.TooManyRoots` | crypto/galois/shamir.go:46-60 | a polynomial with as many different roots as coefficients is zero everywhere |
| `Polynomials.AgreeEverywhere` | crypto/galois/shamir.go:46-60 | two polynomials that agree at as many places as they have coefficients agree everywhere |
| `Interpolation.InterpolatePolynomial` | crypto/galois/shamir.go:64-82 | the sum of samples times Lagrange basis values |
| `Interpolation.InterpolatedAtSample` | crypto/galois/shamir.go:64-82 | at a sample it takes the value of the sample |
| `Interpolation.InterpolationRecovers` | crypto/galois/shamir.go:64-82 | from enough values of a polynomial it computes the polynomial anywhere |
| `Shamir.Split` | crypto/galois/shamir.go:156-213 | which arguments are refused and how; else each share holds the values of one polynomial per byte at its own abscissa, and the abscissa |
| `Shamir.Combine` | crypto/galois/shamir.go:217-267 | which shares are refused and why; else the interpolation at zero, byte by byte |
| `Shamir.CombineOfShares` | crypto/galois/shamir.go:217-267 | from threshold or more shares of a secret it is the secret |
| `Shamir.SplitThenCombine` | crypto/galois/shamir.go:156-267 | combining any selection of threshold or more shares yields the secret, whatever the polynomials and the order |
| `ShamirSecrecy.SharesTellNothing` | crypto/galois/shamir.go:156-215 | given one share less than the threshold, whatever they are, each secret is possible, by exactly one choice of the random coefficients |
| `ShamirSecrecy.OnlyZeroVanishes` | crypto/galois/shamir.go:25-72 | only zero coefficients give a polynomial as many roots as it has coefficients |
| `LeftCheats.CheatIsPowerOfFive` | util/decimal/decimal-go.go:177-252 | every row of the table holds the power of five and the digits that it implies |
| `LeftCheats.PrefixIsLessThan` | util/decimal/decimal-go.go:255-265 | compares the two digit strings as decimal fractions |
| `LeftCheats.NewDigitsExact` | util/decimal/decimal-go.go:268-273 | table and comparison predict the exact number of digits of the product |
| `DecimalShift.Decimal.Trim` | util/decimal/decimal-go.go:70-77 | trailing zeros go, and the decimal point of zero |
| `DecimalShift.Decimal.Assign` | util/decimal/decimal-go.go:80-101 | the value is the integer, without trailing zeros |
| `DecimalShift.Decimal.Delta` | util/decimal/decimal-go.go:269-272 | the product has exactly the digits predicted, so that the write index ends at zero |
| `DecimalShift.Decimal.LeftShift` | util/decimal/decimal-go.go:268-311 | the digits of the value times 2^k, cut to 800; trunc is set exactly if a non-zero digit is lost |
| `DecimalShift.Decimal.PickUp` | util/decimal/decimal-go.go:113-129 | reads digits until the number is at least 2^k |
| `DecimalShift.Decimal.RightShift` | util/decimal/decimal-go.go:109-160 | the digits of the value divided by 2^k, to the end, cut to 800; trunc likewise |
| `DecimalShift.NextMultiple` | util/decimal/decimal-go.go:143-156 | each digit put out makes the number divisible by one more power of two, so the loop ends |
| `DecimalShift.NoOverflow` | util/decimal/decimal-go.go:268-311 | for shifts of up to 60 bits no intermediate exceeds 64 bits |
| `DecimalShift.AllEmitted` | util/decimal/decimal-go.go:109-160 | the digits put out times 2^k are the value shifted |
| `DecimalCut.CutValue` | util/decimal/decimal-go.go:109-160 | cutting to 800 digits is exact if no non-zero digit is lost, and else loses less than a unit of the last digit |
| `DecimalShift.Decimal.Shift` | util/decimal/decimal-go.go:314-331 | unless trunc is set the value changes by exactly 2^k, for every k; trunc is never reset |
| `DecimalShift.Decimal.ShouldRoundUp` | util/decimal/decimal-go.go:334-347 | true exactly if the rest is more than half, or half and the digit before odd, with trunc counted as more |
| `DecimalShift.HalfwayDigit` | util/decimal/decimal-go.go:334-347 | the test on single digits decides where the rest stands to a half |
| `DecimalShift.Decimal.Round` | util/decimal/decimal-go.go:353-362 | the value becomes the cut value or one unit more, as that says |
| `DecimalShift.Decimal.RoundDown` | util/decimal/decimal-go.go:365-371 | the value of the first digits |
| `DecimalShift.Decimal.RoundUp` | util/decimal/decimal-go.go:374-394 | the value of the first digits plus one unit of the last, nines included |
| `Decimals.RescaleCuts` | util/decimal/decimal.go:362-379 | exact towards smaller exponents, else cut towards zero |
| `Decimals.AddIsExact` | util/decimal/decimal.go:392-402 | the sum of the numbers |
| `Decimals.SubIsExact` | util/decimal/decimal.go:405-415 | the difference of the numbers |
| `Decimals.CmpCompares` | util/decimal/decimal.go:566-579 | compares the numbers |
| `Decimals.QuoRemDivides` | util/decimal/decimal.go:470-507 | if no exponent wraps around: d = d2 * q + r, r less than d2 times a unit of q and of the sign of d |
| `DecimalOverflow.QuoRemExact` | util/decimal/decimal.go:470-507 | that holds exactly for these operands, among all with a divisor other than zero |
| `Decimals.DivRoundIsNearest` | util/decimal/decimal.go:514-536 | if no exponent wraps around: the multiple of 10^-precision nearest to the quotient, ties away from zero |
| `DecimalRounding.DivRoundComputes` | util/decimal/decimal.go:514-536 | whatever wraps around: the quotient cut at the exponent computed, rounded by a comparison that is off by 2^32 decimal places or by none |
| `DecimalRounding.DivRoundExact` | util/decimal/decimal.go:514-536 | among all operands with a divisor other than zero, the nearest multiple comes out exactly for these, told by the integers and the exponents |
| `DecimalRounding.NearestFactor` | util/decimal/decimal.go:514-536 | the nearest multiple is the one whose factor is the nearest integer to the scaled ratio |
| `DecimalRounding.QuotientOverflows` | util/decimal/decimal.go:470-536 | 10^(2^31-1) by 10^(-2^31), for which the quotient is 0, rounded 1 |
| `DecimalRounding.RoundingOverflows` | util/decimal/decimal.go:514-536 | operands that are divided right, but rounded wrong |
| `Decimals.Round` | util/decimal/decimal.go:759-778 | the steps on the fresh value compute the rounded decimal |
| `Decimals.RoundIsNearest` | util/decimal/decimal.go:759-778 | the nearest multiple of 10^-places, ties away from zero, for negative values and places too; at the least int32 the number is right exactly if it is zero |
| `Decimals.RoundBank` | util/decimal/decimal.go:795-810 | the nearest multiple, ties to even, except at the least int32, where it is right exactly below half a unit |
| `Decimals.LeastPlacesOverflow` | util/decimal/decimal.go:759-810 | 10^(2^31) rounded at the least int32 becomes 10^(-2^31), either way |
| `Decimals.NearestUnique` | util/decimal/decimal.go:751-810 | there is only one nearest multiple for either way with ties |
| `SpongeFunctions.AbsorbSplit` | crypto/sha3/sha3.go:109-141 | absorbing two messages in sequence is absorbing both, at block boundaries |
| `SpongeFunctions.OutputSplit` | crypto/sha3/sha3.go:144-163 | two outputs in sequence are one |
| `Sponges.XorIn` | crypto/sha3/xor_unaligned.go:9-41 | for the rates in use, exactly the buffer is combined with the state |
| `Sponges.Sponge.Reset` | crypto/sha3/sha3.go:51-58 | as if nothing had been written |
| `Sponges.Sponge.Clone` | crypto/sha3/sha3.go:60-69 | panics exactly if squeezing with less read of the block than the rate lacks to the storage; else a valid copy that goes on as many bytes earlier, or, absorbing or at the largest rate, at the same place |
| `Sponges.CloneRepeats` | crypto/sha3/sha3.go:60-69 | at rate 136, after 40 bytes, original and copy go on with different bytes |
| `Sponges.Sponge.Write` | crypto/sha3/sha3.go:109-141 | whatever the pieces, the state is that of the message written in one |
| `Sponges.Sponge.PadAndPermute` | crypto/sha3/sha3.go:88-106 | the state after absorbing the padded message |
| `Sponges.Sponge.AbsorbBuffer` | crypto/sha3/sha3.go:72-79 | a full buffer is combined with the state and permuted |
| `Sponges.Sponge.Read` | crypto/sha3/sha3.go:144-163 | the next bytes of one stream of output of the whole message, whatever the sizes |
| `Sponges.Sponge.Sum` | crypto/sha3/sha3.go:166-171 | absorbing, the one-shot sponge of all that was written, and the sponge itself does not change; squeezing, what a copy yields, or the panic |
| `Base58.NewAlphabet` | crypto/base58/base58.go:26-49 | panics exactly for a length other than 58; for different ASCII characters the tables are inverse |
| `Base58.EncodeCapacity` | crypto/base58/base58.go:57-73 | n * 138 / 100 + 1 digits are enough for n bytes |
| `Base58.DecodeCapacity` | crypto/base58/base58.go:105-117 | n * 733 / 1000 + 1 bytes are enough for n digits |
| `Base58.Encode` | crypto/base58/base58.go:57-102 | the text of the byte string: a letter for each leading zero byte, then the digits |
| `Base58.Decode` | crypto/base58/base58.go:105-155 | accepts exactly texts of the alphabet and yields the bytes that they spell |
| `Base58.DecodeOfText` | crypto/base58/base58.go:57-155 | what the text of a byte string spells is that byte string |
| `Base58.TextOfDecoded` | crypto/base58/base58.go:57-155 | the text of what a valid text spells is that text |
| `Base58.EncodeThenDecode` | crypto/base58/base58.go:57-155 | decoding undoes encoding, for every byte string |
| `Base58.DecodeThenEncode` | crypto/base58/base58.go:57-155 | encoding undoes decoding, for every valid text |
| `Radix.MultiplyAdd` | crypto/base58/base58.go:74-92 | the carry loop on the digit buffer multiplies and adds, and stays inside it |
| `Mnemonics.AddChecksum` | crypto/bip39/bip39.go:308-335 | the number of the data followed by the first bits of the hash |
| `Mnemonics.Bip39.SetWordList` | crypto/bip39/bip39.go:73-79 | list and map are inverse |
| `Mnemonics.Bip39.NewMnemonic` | crypto/bip39/bip39.go:164-209 | refuses other sizes; else the words of the checked number, in eleven-bit digits, leading zeros included |
| `Mnemonics.Bip39.SplitMnemonicWords` | crypto/bip39/bip39.go:381-393 | the fields, if their number is right |
| `Mnemonics.Bip39.EntropyFromMnemonic` | crypto/bip39/bip39.go:110-159 | which error, or the padded entropy whose checksum the words carry |
| `Mnemonics.Bip39.MnemonicToByteArray` | crypto/bip39/bip39.go:214-263 | on single-spaced mnemonics the same as EntropyFromMnemonic, but for the name of one error; or with the checksum kept, the number of the words |
| `Mnemonics.Bip39.IsMnemonicValid` | crypto/bip39/bip39.go:284-304 | true exactly for a right number of known words |
| `Mnemonics.MasksArePowers` | crypto/bip39/bip39.go:26-41 | the tables of masks and shifts fit the number of words |
| `Mnemonics.SameCheck` | crypto/bip39/bip39.go:242-256 | comparing all bytes of the checked number decides the same as comparing the bits of the checksum |
| `Mnemonics.RecoveredOfSentence` | crypto/bip39/bip39.go:110-209 | the words of an entropy lead back to it |
| `Mnemonics.SentenceOfRecovered` | crypto/bip39/bip39.go:110-209 | only the words of an entropy lead to it |
| `Mnemonics.EntropyRoundTrip` | crypto/bip39/bip39.go:110-263 | making a mnemonic and reading it back either way yields the entropy, for all five sizes |
| `Words.FieldsOfJoin` | crypto/bip39/bip39.go:208-384 | joined words are the fields of the sentence |
| `Words.SplitOfJoin` | crypto/bip39/bip39.go:208-216 | and its parts between single spaces |
| `Bytes.PadRestores` | crypto/bip39/bip39.go:357-365 | padding the bytes of a number back to their length restores leading zeros |
| `HdKeys.SumBytes` | crypto/bip32/bip32.go:369-384 | 32 bytes of the sum modulo the order |
| `HdKeys.SumPoint` | crypto/bip32/bip32.go:359-384 | the public key of a sum is the sum of the public keys |
| `HdKeys.DerivationsSucceed` | crypto/bip32/bip32.go:93-147 | when private and when public derivation fail |
| `HdKeys.DerivationsDiffer` | crypto/bip32/bip32.go:93-147 | a lawful system in which one of the two derivations fails and the other does not, and one the other way around |
| `HdKeys.DeriveCommutes` | crypto/bip32/bip32.go:93-193 | deriving and then dropping the private part is the same key, in every field, as the other order |
| `HdKeys.PathCommutes` | crypto/bip32/bip32.go:93-193 | the same along any path of indices that are not hardened |
| `HdKeys.DeserializeSerialize` | crypto/bip32/bip32.go:196-269 | reading a written key yields it, if its fields have their lengths |
| `HdKeys.SerializeDeserialize` | crypto/bip32/bip32.go:196-269 | writing an accepted key yields the bytes read |
| `BerObjects.PrintReads` | crypto/sm2/ber.go:19-240 | reading a printed object anywhere yields the object and ends behind it |
| `BerObjects.ReadIsGood` | crypto/sm2/ber.go:135-240 | whatever is read has tags that end where they should and lengths that match, at every depth |
| `BerObjects.LengthAnywhere` | crypto/sm2/ber.go:115-204 | a printed length is read back, up to 2^31 |
| `BerObjects.TooLongIsRefused` | crypto/sm2/ber.go:175-198 | lengths from 2^31 on are printed but not accepted |
| `BerObjects.BerToDerTwice` | crypto/sm2/ber.go:57-75 | what is printed is read as the same object to the last byte, so converting again changes nothing, for outputs below 2^31 bytes |
| `BerObjects.BerToDerIdentity` | crypto/sm2/ber.go:57-75 | well nested input with shortest definite lengths is kept; what follows it is dropped |
| `BerTranscoder.LengthLength` | crypto/sm2/ber.go:92-99 | the number of bytes of a length |
| `BerTranscoder.MarshalLongLength` | crypto/sm2/ber.go:78-89 | appends the big-endian number |
| `BerTranscoder.EncodeLength` | crypto/sm2/ber.go:115-133 | appends the shortest definite length |
| `BerTranscoder.EncodeTo` | crypto/sm2/ber.go:19-55 | appends the object as printed |
| `BerTranscoder.ReadTag` | crypto/sm2/ber.go:145-165 | the loop over a long tag ends where the definition says, or fails where it does |
| `BerTranscoder.ReadLength` | crypto/sm2/ber.go:167-204 | the loop over the bytes of a length, with its checks |
| `BerTranscoder.ReadSubObjects` | crypto/sm2/ber.go:211-235 | the loop over the objects inside, up to the end or the end marker |
| `BerTranscoder.ReadBer` | crypto/sm2/ber.go:135-240 | terminates and yields what the definition says, errors included |
| `BerTranscoder.Ber2Der` | crypto/sm2/ber.go:57-75 | reads the first object and prints it |
| `Certificates.GoodChainMeans` | crypto/sm2/verify.go:342-398 | a good chain starts at the leaf, ends in a root, repeats nothing, and each link is signed, named, in time, permitted and within its path length |
| `Certificates.UnusedShrinks` | crypto/sm2/verify.go:369-387 | each step of the search uses up one certificate of the pool |
| `CertPools.CertPool.AddCert` | crypto/sm2/cert_pool.go:156-175 | adds a certificate that is not in the pool, and both indexes stay right |
| `CertPools.Contains` | crypto/sm2/cert_pool.go:140-153 | true exactly if an equal certificate is in the pool |
| `CertPools.FindVerifiedParents` | crypto/sm2/cert_pool.go:116-138 | exactly the positions of the candidates by key or else by name that signed the certificate, in order |
| `CertPools.IssuersAre` | crypto/sm2/cert_pool.go:116-138 | the issuers in order are exactly the candidates that signed |
| `ChainBuilding.AppendToFreshChain` | crypto/sm2/verify.go:335-340 | a new array that shares nothing with the chain |
| `ChainBuilding.TryRoots` | crypto/sm2/verify.go:343-362 | the chains that the issuers among the roots end, in order, without those in the chain or not valid |
| `ChainBuilding.BuildChains` | crypto/sm2/verify.go:342-398 | terminates with the chains of the search, in its order, and its cache; an error exactly if there is none |
| `ChainResults.SearchOutcome` | crypto/sm2/verify.go:342-398 | whatever is in the cache: every chain found or kept is good for the leaf, of issuers that are tried; every issuer has been followed, as a root or by way of what the cache holds; the cache only grows; and failures stay failures |
| `ChainResults.StuckHere` | crypto/sm2/verify.go:342-398 | a search that found nothing has seen every step from its certificate |
| `ChainCompleteness.SettledAbove` | crypto/sm2/verify.go:380-387 | when a certificate fails and is put into the cache, the cache holds only failures with nothing unseen beyond them, though each was found under another chain |
| `ChainCompleteness.NothingMissed` | crypto/sm2/verify.go:342-398 | then no good chain of tried issuers leads from the leaf to a root |
| `ChainResults.FailureIsFinal` | crypto/sm2/verify.go:342-398 | without path length limits, with no root among the intermediates and no intermediate twice, the search from a leaf fails if and only if there is no such chain |
| `ChainResults.ResultsAreGood` | crypto/sm2/verify.go:342-398 | without any condition: what is found is a good chain of tried issuers, and no root that signed the leaf is missed |
| `ChainFailures.RootLimitHides` | crypto/sm2/verify.go:380-387 | a search that misses a chain because a root has a path length limit, all else being as asked for |
| `ChainFailures.IntermediateLimitHides` | crypto/sm2/verify.go:380-387 | because an intermediate has one |
| `ChainFailures.RootInPoolHides` | crypto/sm2/verify.go:347-387 | because a root is an intermediate too |
| `ChainFailures.TwinHides` | crypto/sm2/verify.go:369-387 | because two intermediates have the same bytes |
| `ChainBuilding.ForUsages` | crypto/sm2/verify.go:309-332 | exactly the candidates that allow a usage asked for, in order |
| `ChainBuilding.CheckChainForKeyUsage` | crypto/sm2/verify.go:494-554 | true exactly if no usage is asked for, or some usage asked for is supported by every certificate; never for an empty chain |
| `ChainBuilding.Verify` | crypto/sm2/verify.go:258-333 | every reason to refuse the leaf, in order; else the candidates that allow a usage asked for, these being the leaf itself if it is a root, and the results of the search otherwise |
| `ChainBuilding.VerifiedChains` | crypto/sm2/verify.go:258-333 | every chain returned is good and allows a usage asked for, and no direct root is missed |

## Left out

- FieldValues.FieldVal.Mul2: the column sums are computed by a function of the column in a loop, where the source writes out nineteen columns; terms and order of carries are the same.
- FieldValues.FieldVal.SquareVal: the same.
- FieldValues.FieldVal.Inverse: that P is prime is a hypothesis of Fermat.LittleTheorem and of what follows from it.
- PointValues.AddedRight: both points are finite, with z other than zero modulo P, and their own coordinates lose no carry; infinity has zero limbs. That a lost carry moves the result to another affine point is shown for one pair of points, not for all.
- JacobianPoints.AddJacobian: works on the numbers that limbs stand for and their magnitudes; FieldRefinement says of each operation that the limbs do the same. An object that is the x of both operands, or the y, has to be normalized.
- CurveFormulas.SumIsChord: that chords and tangents make an associative group is not proved.
- ScalarMultiplication.ScalarMult: works in any abelian group with the endomorphism; that multiplying x by beta is one on the curve is not part of this model. The conversion at its end is AffinePoints.JacobianToAffine.
- ScalarMultiplication.ScalarBaseMult: the table of precomputed points is a parameter of which the contract says what it holds.
- RlpEncoder.EncReader.Read: the reader has its own copy of the data and the headers, and returning the buffer to the pool is a flag.
- RlpStream.Stream.Read: readers fail only at the end of their input; the scratch buffers for sizes and integers are local.
- RlpDecoder.DecodeInterface: of streams without a limit, or over less input than their limit, only that it ends. The type cache, pointers, structs, arrays and the wrapping of errors with their context are not modelled; values are trees of strings and lists.
- Shamir.Split: the permutation of abscissas and the random coefficients are parameters; shares are sequences.
- DecimalShift.Decimal.LeftShift: digits are numbers without the offset of their characters, and cutoffs are numbers instead of strings. RoundedInteger and String are left out.
- Sponges.Sponge.Write: the permutation is any function, the state is 200 bytes, and the panic after reading has started is a precondition.
- Base58.NewAlphabet: for alphabets beyond ASCII only the tables are built; encoding with them is not modelled.
- Mnemonics.Bip39.MnemonicToByteArray: nothing is said of mnemonics with other white space than single spaces. The hash is any function to a byte, and white space is a set of characters.
- HdKeys.DeriveCommutes: curve, compression and hashes are abstract; what the source adds up for bytes that are no point is left open. Master keys from seeds are left out.
- BerTranscoder.ReadBer: an index out of range, which is a panic in the source, is an error here.
- ChainBuilding.Verify: signatures, name constraints, host names and the time are parameters; certificates are values; the Windows branch and the hints in errors are left out.
- ChainResults.FailureIsFinal: which searches with path length limits miss a chain depends on the order of the whole search and has no simpler condition here.
- The rest of the library: SM2 curve and signing, hash functions, AES and RSA, float conversion and trigonometry of decimals, the WebAssembly interpreter, storage, logging and network code.
