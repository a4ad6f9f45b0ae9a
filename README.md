# go-kzg EIP-4844 helpers in Dafny

This project models `eth/helpers.go` of go-kzg, the glue between the EIP-4844 blob API and the KZG
commitment scheme over BLS12-381. It covers the parts of that file that work on indices, bytes and
scalar-field elements:

- **Bit-reversal permutation** (`isPowerOfTwo`, `reverseBits`, `bitReversalPermutation`). This is
  the reordering applied once to the Lagrange setup. `bit_reversal.dfy` defines a recursive k-bit
  reversal `Rev` and proves that Go's expression `bits.Reverse64(n) >> (65 - bits.Len64(order))`
  computes it.
- **Scalar field** (`field.dfy`). `Fr` is the integers below `BLS_MODULUS`. Subtraction,
  multiplication, division by the extended-Euclid inverse and powers are defined on it, as are
  `bls.FrFrom32` (a little-endian decode, accepted only when the value is canonical) and
  `bls.FrTo32`.
- **Byte conversions** (`codec.dfy`). `BytesToBLSField`, `bigToFr` and `frToBig` keep their
  in-place 16-round swap of a 32-byte array. `BlobToPolynomial` and `BlobsToPolynomials` succeed
  on the whole input or fail; they never return a partial result.
- **Fiat-Shamir transcript** (`transcript.dfy`). `HashToBLSField` streams bytes into a hash
  state, modelled as a `Hasher` object. The bytes it writes are proved equal to a pure function
  `TranscriptBytes`, and lemmas describe where each field is placed in that byte sequence.
- **Proof scaffolding** (`kzg.dfy`). `ComputePowers` is a loop over an array. `ComputeKZGProof`
  keeps the source's three loops and its two error returns, and returns the quotient polynomial.
  `ComputeAggregatedPolyAndCommitment` rejects an empty batch and derives the evaluation challenge
  `r^m`.

External inputs are parameters:

- SHA-256 is a function from byte strings to 32-byte digests.
- `FieldElementsPerBlob` is a number.
- `DomainFr` is a sequence of field elements.
- The claimed value `y` of `ComputeKZGProof` is a field element.

`arith.dfy` and `bytes.dfy` hold facts about integer division and about little- and big-endian
byte encodings. They support the other modules.

Two facts about the code that the model keeps:

- `BytesToBLSField` re-interprets its 32 bytes as little-endian (the comment at
  eth/helpers.go:145). It swaps the bytes and reads them with `big.Int.SetBytes`. The model states
  this as `LeValue(h) % BLS_MODULUS`.
- `ComputeKZGProof` (eth/helpers.go:210-223) first shifts every element by `-y`. It then checks
  the polynomial's length against the domain. Last, it checks the domain points one by one while it
  fills the denominators, so the first point equal to `z` ends the call. `Kzg.ComputeKZGProof`
  keeps this order.

## Model

| member | source | states |
|---|---|---|
| BitReversal.IsPowerOfTwo | eth/helpers.go:64-66 | `value > 0 && value & (value - 1) == 0` holds exactly when value is a positive power of two, 2^Log2(value) |
| BitReversal.PowerOfTwoBitTrick | eth/helpers.go:65 | for positive v, `v & (v - 1)` is zero if and only if v equals 2^Log2(v) |
| BitReversal.ReverseBits | eth/helpers.go:69-75 | for an order 2^k, the result is the k-bit reversal of n and lies below the order; any other order panics and is excluded by the precondition |
| BitReversal.ReverseBitsIsRev | eth/helpers.go:74 | the 64-bit reversal shifted right by 65 - Len64(order) is the Log2(order)-bit reversal, including the shift by 64 when the order is 1 |
| BitReversal.ReverseBitsInvolution | eth/helpers.go:69-75 | for i below a power-of-two order, reversing the index twice gives i back |
| BitReversal.RevInvolution | eth/helpers.go:74 | the k-bit reversal of a k-bit number is an involution |
| BitReversal.RevBound | eth/helpers.go:74 | a k-bit reversal is below 2^k |
| BitReversal.BitReversalPermutation | eth/helpers.go:78-88 | the output has the input's length, `out[i] == l[reverseBits(i, len(l))]` for every i, it equals the pure permutation `BitReversed(l)`, and it holds the same elements with the same multiplicities; an empty input gives an empty output |
| BitReversal.BitReversedInvolution | eth/helpers.go:78-88 | applying the permutation twice gives back the original sequence |
| BitReversal.BitReversedPermutes | eth/helpers.go:78-88 | the permuted sequence is a rearrangement of the input: equal multisets |
| BitReversal.RevImageSize | eth/helpers.go:83-85 | reversal is injective on k-bit indices, so it maps a set of them to a set of the same size |
| Kzg.ComputePowers | eth/helpers.go:124-133 | returns exactly n elements, element i being r^i; for n > 0 the first is 1 |
| Kzg.PowersMultiply | eth/helpers.go:124-133 | the powers satisfy `powers[i + j] == powers[i] * powers[j]` |
| Field.FrPowAdd | eth/helpers.go:128-131 | r^(i+j) == r^i * r^j in the field |
| Field.FrPowIsPowMod | eth/helpers.go:128-131 | the field power computed by repeated MulModFr is the integer power reduced modulo BLS_MODULUS |
| Codec.SwapEndianness | eth/helpers.go:147-149 | after the 16 swaps the 32-byte array is the old array reversed: `b[i] == old(b[31 - i])` |
| Codec.BytesToBLSField | eth/helpers.go:144-154 | the result is the little-endian value of h reduced modulo BLS_MODULUS, for every input (it never fails) |
| Codec.BigToFr | eth/helpers.go:322-331 | for a number of at most 32 bytes, the decode succeeds if and only if the number is below BLS_MODULUS, and then the element is that number |
| Codec.FrToBig | eth/helpers.go:312-320 | the big integer read back is the field element's value |
| Field.FrFrom32OfFrTo32 | eth/helpers.go:268 | decoding the 32-byte encoding of an element gives the element |
| Field.FrTo32OfFrFrom32 | eth/helpers.go:292 | a 32-byte string decodes if and only if its little-endian value is below the modulus, and then it is the encoding of what it decodes to |
| Field.FrTo32Injective | eth/helpers.go:268 | distinct elements have distinct encodings |
| Codec.DecodeBlob | eth/helpers.go:288-297 | a blob decodes if and only if every element is canonical, and then element i of the result is the decoding of element i |
| Codec.DecodeEncodeBlob | eth/helpers.go:288-297 | decoding the encoding of a polynomial gives the polynomial |
| Codec.BlobToPolynomial | eth/helpers.go:288-297 | succeeds exactly when the blob decodes, then returns the full decoding; on failure returns an empty polynomial, never a partial one |
| Codec.BlobsToPolynomials | eth/helpers.go:299-310 | succeeds exactly when every blob decodes, then returns one polynomial per blob in order; on failure returns the empty sequence |
| Transcript.HashToBLSField | eth/helpers.go:244-286 | the result is the digest of TranscriptBytes (tag, LE64 blob size, LE64 count, element encodings, commitments) reduced by BytesToBLSField |
| Transcript.TranscriptHeader | eth/helpers.go:246-263 | the transcript starts with the 16 ASCII bytes "FSBLOBVERIFY_V1_", then FieldElementsPerBlob and len(polys) as 8-byte little-endian integers |
| Transcript.TranscriptLength | eth/helpers.go:244-282 | the transcript is 32 + 32 * (number of field elements) + 48 * (number of commitments) bytes long |
| Transcript.PolynomialsBytesLength | eth/helpers.go:266-274 | the element encodings take 32 bytes per field element |
| Transcript.TranscriptElementAt | eth/helpers.go:266-274 | element i of polynomial j sits at byte 32 + 32 * (elements of polynomials before j + i), in polynomial-then-element order |
| Transcript.TranscriptCommitmentAt | eth/helpers.go:275-282 | commitment k sits at byte 32 + 32 * (all elements) + 48 * k |
| Transcript.TranscriptInjective | eth/helpers.go:244-282 | for polynomials of the announced blob size, equal transcripts come only from equal polynomial and commitment sequences |
| Transcript.SwapChangesTranscript | eth/helpers.go:266-274 | exchanging two different polynomials of a batch changes the hashed bytes |
| Kzg.ComputeKZGProof | eth/helpers.go:208-232 | a length different from the domain's gives "polynomial has invalid length"; otherwise a z equal to some domain point gives "invalid z challenge"; otherwise the result has one quotient per element, every denominator `DomainFr[i] - z` is nonzero, `quotient[i] == (p[i] - y) / (DomainFr[i] - z)`, and `quotient[i] * (DomainFr[i] - z) == p[i] - y` whenever the denominator is invertible |
| Kzg.QuotientEntry | eth/helpers.go:218-227 | for a domain point other than z the denominator is nonzero, and when that denominator is invertible (coprime to the modulus) the quotient times it gives back the shifted value |
| Field.DivTimesDivisor | eth/helpers.go:226 | division by a d coprime to the modulus is undone by multiplying by d |
| Field.InvCancels | eth/helpers.go:226 | the extended-Euclid inverse of an element coprime to the modulus cancels it |
| Field.SubZeroIff | eth/helpers.go:219-222 | `DomainFr[i] - z` is zero exactly when `DomainFr[i] == z` |
| Kzg.ComputeAggregatedPolyAndCommitment | eth/helpers.go:158-171 | an empty batch, and only an empty batch, gives "powers can't be 0 length"; a non-empty batch always succeeds, r is the transcript challenge, there are len(blobs) powers with power i equal to r^i, and the evaluation challenge `r * powers[m-1]` equals r^m |

## Left out

- `init`, the JSON trusted setup and the package-level globals: these are I/O and global state. `DomainFr` is a parameter of `Kzg.ComputeKZGProof` instead. The setup tables are used only by the curve calls left out below, so no member takes them. `BitReversal.BitReversalPermutation` gets the Lagrange table as its input, as in the source.
- Elliptic-curve and pairing operations: `LinCombG1`, `ToCompressedG1`, `FromCompressedG1`, `MulG1`/`MulG2`, `SubG1`/`SubG2`, `PairingsVerify` and `CopyG1`. They are foreign library calls.
- `VerifyKZGProofFromPoints` and `PolynomialToKZGCommitment` consist of curve calls only. `VerifyAggregateKZGProofFromPolynomials` and `ComputeAggregateKZGProofFromPolynomials` chain the modelled helpers with `bls.PolyLinComb`, the barycentric evaluation and curve calls. The model does not compute the results of those calls, so these two functions are not modelled.
- `EvaluatePolynomialInEvaluationForm`: it calls the library's barycentric evaluation. `y` is a parameter of `Kzg.ComputeKZGProof`.
- SHA-256: it is a function parameter, and nothing about it is assumed.
- The error returns of `sha.Write` cannot happen for a `hash.Hash`, so they are not modelled.
- `FieldElementsPerBlob` and `BLSModulus` are defined elsewhere in package `eth`, not in eth/helpers.go. The blob size is a parameter. The modulus is the BLS12-381 scalar-field order.
- `bls.FrFrom32`/`bls.FrTo32` are modelled by what they compute, not by the library's code: a little-endian 32-byte decode with a canonical check, and its encoder.
- `Kzg.ComputeKZGProof`: the identity `quotient[i] * (DomainFr[i] - z) == p[i] - y` is stated only for denominators coprime to the modulus. The primality of `BLS_MODULUS`, which makes every nonzero denominator invertible, is not proved. The method returns the quotient polynomial, not its compressed commitment.
- Kzg.QuotientEntry: the cancellation `quotient * (w - z) == p - y` is stated only when `w - z` is coprime to `BLS_MODULUS`. `DivModFr` cancels every nonzero denominator, because the modulus is prime, and that primality is not proved.
- Field.DivTimesDivisor: it is stated only for divisors coprime to `BLS_MODULUS`, not for every nonzero divisor, because the primality of the modulus is not proved.
- Field.InvCancels: it is stated only for elements coprime to `BLS_MODULUS`, not for every nonzero element, because the primality of the modulus is not proved.
- `Kzg.ComputeAggregatedPolyAndCommitment`: it returns r, the powers and the evaluation challenge. The aggregated polynomial (`bls.PolyLinComb`, including its own length error) and the aggregated commitment (`FromCompressedG1` and `LinCombG1`, with their decode errors) are not computed. Like the source, it does not check that the number of commitments matches the number of blobs.
- `Kzg.ComputePowers`: `n` is a natural number. A negative Go `int` would make `make` panic, and that case is not modelled.
- `BitReversal.ReverseBits`: the panic on a non-power-of-two order is a precondition. `bitReversalPermutation` never reaches it for an empty input, and `PermutableLength` says so.
- `BitReversal.BitReversalPermutation`: it is generic over the element type; the source permutes `bls.G1Point` values.
- `Codec.BigToFr`: a number of more than 32 bytes makes the source's `copy` panic. The precondition `n < 2^256` excludes it, and every caller in the file meets it.
- `Transcript.SwapChangesTranscript`: it states that the hashed bytes change. That the challenge then changes would need SHA-256 to be collision-free, which is not modelled.
- The `Hasher` class records the bytes written and applies the digest function in `Sum`. The block-wise internal state of SHA-256 is not modelled.
