# Sealed-bid auction primitives: hidden-order groups, lazy timed commitments and Solidity encoders

This project models, in Dafny, the arithmetic and encoding core behind the
sealed-bid auction house:

- **RSA hidden-order groups** (`rsa/src/hog`):
  - `RsaHiddenOrderGroup` is the signed quotient group QR_M^+. An element stands for the class {x, -x} modulo M and is stored as min(x mod M, M - x mod M). These are modules `Hog` and `RsaHog`.
  - `UnsignedRsaHiddenOrderGroup` is plain Z_M^* with residues in [0, M). This is module `UnsignedRsaHog`.
  - Both have `from_nat`, `op`, `identity`, `generator`, `power`, `inverse` and `Default`. They share the parameter traits and the error type with its `Display` and `source`.
- **The lazy timed commitment** (`timed_commitments/src/lazy_tc.rs`, module `LazyTc`):
  - `commit` packs the message with the little-endian bytes of a Pedersen opening before handing it to the basic timed commitment.
  - `force_open` and `ver_open` split those bytes off again and decide acceptance from the timed-commitment check, the Pedersen check and the claimed message.
- **The Solidity helpers** (`solidity/src/lib.rs`, modules `Solidity` and `Hex`):
  - `pad_to_32_byte_offset`, modelled as the reverse / resize / reverse array method it is.
  - The `ethabi` token encoders for big integers, RSA elements, Pocklington step certificates, Pocklington certificates and PoE proofs. Each has a decoder and a round-trip lemma.
  - The loop in `get_rsa_library_src` that writes the modulus as 256-bit words, modelled as a `while` loop over a string.

Module `Bigint` holds the arithmetic the group code relies on:

- powers, and `modpow` by square-and-multiply proved equal to `b^e mod m`;
- an extended Euclidean algorithm with its Bezout identity and coefficient bounds;
- big-endian byte conversion and u64 limbs.

Module `Wrappers` holds `Option` and `Result`.

Conventions of the model:

- **Panics become preconditions.** Three are modelled this way:
  - `assert!(n > 0)` in `from_nat`;
  - the `usize` underflow of `len - f_bytes` and `bytes.len() - 1`;
  - indexing `u256digit[3]` of a short chunk.
- **Errors become error results.** `?`-propagated errors and `Err(..)` are `Result` values.
- **Failing `.unwrap()`s of the ABI encoders become `None`.**
- **Residues use Dafny's `%`.** Every operand reduced modulo M is non-negative, so Dafny's Euclidean `%` agrees with the truncating `%` of `num-bigint` there.

## Model

| member | source | states |
|---|---|---|
| Hog.Display | rsa/src/hog/mod.rs:39-47 | `NotInvertible` displays "Group element not invertible" and `NotCyclic` "Group is not cyclic, missing generator", each message iff that variant |
| Hog.Source | rsa/src/hog/mod.rs:33-37 | no error has an underlying cause |
| RsaHog.MinWithComplement | rsa/src/hog/rsa_hidden_order_group.rs:37-40 | min(a, M - a) of a residue is canonical (n <= M - n) and in the class of a |
| RsaHog.FromNat | rsa/src/hog/rsa_hidden_order_group.rs:33-43 | requires x > 0; the result is the canonical representative of the class of x |
| RsaHog.FromNatSignQuotient | rsa/src/hog/rsa_hidden_order_group.rs:33-43 | x and M - x give the same element |
| RsaHog.FromNatEqualIff | rsa/src/hog/rsa_hidden_order_group.rs:33-43 | `from_nat(x) == from_nat(y)` iff x ≡ ±y (mod M) |
| RsaHog.CanonicalUnique | rsa/src/hog/rsa_hidden_order_group.rs:39-41 | a class has exactly one canonical representative, so the min(...) formula is determined by the canonical-and-same-class contracts |
| RsaHog.Op | rsa/src/hog/rsa_hidden_order_group.rs:45-55 | the product is canonical and in the class of a.n·b.n |
| RsaHog.OpCommutative | rsa/src/hog/rsa_hidden_order_group.rs:45-55 | `op` is commutative |
| RsaHog.OpAssociative | rsa/src/hog/rsa_hidden_order_group.rs:45-55 | `op` is associative |
| RsaHog.Identity | rsa/src/hog/rsa_hidden_order_group.rs:57-62 | the identity is 1, which is canonical |
| RsaHog.IdentityLeft | rsa/src/hog/rsa_hidden_order_group.rs:45-62 | `op(identity, a) == a` for every canonical a |
| RsaHog.Generator | rsa/src/hog/rsa_hidden_order_group.rs:64-69 | the generator is G exactly as given |
| RsaHog.GeneratorNotCanonicalised | rsa/src/hog/rsa_hidden_order_group.rs:64-69 | for every positive G that is not canonical (G > M - G), `generator()` differs from `from_nat(G)`: no canonicalisation happens |
| RsaHog.Default | rsa/src/hog/rsa_hidden_order_group.rs:20-24 | `Default` is canonical and in the class of 2 |
| RsaHog.Power | rsa/src/hog/rsa_hidden_order_group.rs:71-79 | for e >= 0, the result is canonical and in the class of a.n^e |
| RsaHog.PowerAdd | rsa/src/hog/rsa_hidden_order_group.rs:71-79 | power(a, e1 + e2) == op(power(a, e1), power(a, e2)) |
| RsaHog.Inverse | rsa/src/hog/rsa_hidden_order_group.rs:82-91 | `NotInvertible` exactly when no c has a.n·c ≡ 1 (mod M); otherwise the +M-shifted Bezout coefficient gives a canonical element b with op(a, b).n == 1 |
| RsaHog.OpWithInverse | rsa/src/hog/rsa_hidden_order_group.rs:120-129 | multiplying by from_nat of any modular inverse of a.n gives 1 after canonicalisation, including when the canonical form is the negative representative |
| UnsignedRsaHog.FromNat | rsa/src/hog/unsigned_rsa_hidden_order_group.rs:32-40 | requires x > 0; the result is x's residue, in [0, M) and congruent to x |
| UnsignedRsaHog.FromNatEqualIff | rsa/src/hog/unsigned_rsa_hidden_order_group.rs:32-40 | `from_nat(x) == from_nat(y)` iff x ≡ y (mod M) |
| UnsignedRsaHog.NoSignIdentification | rsa/src/hog/unsigned_rsa_hidden_order_group.rs:151-156 | for 0 < x < M with 2x != M, `from_nat(x) != from_nat(M - x)` |
| UnsignedRsaHog.Op | rsa/src/hog/unsigned_rsa_hidden_order_group.rs:42-50 | the product is in [0, M) and ≡ a.n·b.n (mod M) |
| UnsignedRsaHog.OpExample | rsa/src/hog/unsigned_rsa_hidden_order_group.rs:138-149 | for M > 1200, (M - 30)·40 gives M - 1200 |
| UnsignedRsaHog.OpCommutative | rsa/src/hog/unsigned_rsa_hidden_order_group.rs:42-50 | `op` is commutative |
| UnsignedRsaHog.OpAssociative | rsa/src/hog/unsigned_rsa_hidden_order_group.rs:42-50 | `op` is associative |
| UnsignedRsaHog.Identity | rsa/src/hog/unsigned_rsa_hidden_order_group.rs:52-57 | the identity is 1 |
| UnsignedRsaHog.IdentityLeft | rsa/src/hog/unsigned_rsa_hidden_order_group.rs:42-57 | `op(identity, a) == a` for every reduced a |
| UnsignedRsaHog.Default | rsa/src/hog/unsigned_rsa_hidden_order_group.rs:19-23 | `Default` is 2 mod M, which is 2 when M > 2 |
| UnsignedRsaHog.Generator | rsa/src/hog/unsigned_rsa_hidden_order_group.rs:59-64 | `NotCyclic` iff the parameters have no G; otherwise `from_nat(G)`, reduced modulo M |
| UnsignedRsaHog.Power | rsa/src/hog/unsigned_rsa_hidden_order_group.rs:66-72 | power(a, e).n == a.n^e mod M for e >= 0 |
| UnsignedRsaHog.PowerAdd | rsa/src/hog/unsigned_rsa_hidden_order_group.rs:66-72 | power(a, e1 + e2) == op(power(a, e1), power(a, e2)) |
| UnsignedRsaHog.Inverse | rsa/src/hog/unsigned_rsa_hidden_order_group.rs:75-84 | `NotInvertible` exactly when a.n has no inverse modulo M; otherwise the +M-shifted Bezout coefficient b is in [0, M) with op(a, b).n == 1 |
| Bigint.ExtendedEuclideanGcd | rsa/src/hog/rsa_hidden_order_group.rs:83 | x·a + y·b == gcd; the gcd divides a and b; it is 0 only for a = b = 0; (1, 0, a) when b = 0, and otherwise abs(x) <= b and abs(y) <= max(a, 1) |
| Bigint.GcdIsGreatest | rsa/src/hog/rsa_hidden_order_group.rs:84 | every common divisor divides the computed gcd |
| Bigint.CommonFactorNotInvertible | rsa/src/hog/rsa_hidden_order_group.rs:84-86 | a divisor > 1 shared with M rules out an inverse |
| Bigint.ShiftedCoefficientIsInverse | rsa/src/hog/rsa_hidden_order_group.rs:87-90 | a Bezout coefficient shifted by +M when negative lies in (0, M) and is an inverse modulo M |
| Bigint.ModPow | rsa/src/hog/rsa_hidden_order_group.rs:72 | `modpow` equals b^e mod m and is below m |
| Bigint.ToBytesBe | solidity/src/lib.rs:312 | `to_bytes_be` of the magnitude: nonempty, no leading zero byte unless it is [0] for 0, and it reads back as the number |
| Bigint.FromBytesBeLeadingZeros | solidity/src/lib.rs:312 | leading zero bytes do not change a big-endian value |
| Bigint.ToU64Digits | solidity/src/lib.rs:175 | `to_u64_digits` gives limbs, least significant first, with value n, empty iff n == 0, and no zero top limb |
| Bigint.LimbsValueSplit | solidity/src/lib.rs:175 | the limbs' value splits at any limb boundary into low part + 2^(64k)·high part |
| LazyTc.Pack | timed_commitments/src/lazy_tc.rs:61-62 | the packed message is m followed by the opening bytes, with the lengths adding up |
| LazyTc.Split | timed_commitments/src/lazy_tc.rs:84-87 | requires len >= f_bytes; the removed tail has exactly f_bytes bytes, and the two parts concatenate back to the input |
| LazyTc.SplitPack | timed_commitments/src/lazy_tc.rs:117-122 | splitting a packed message recovers exactly m and the opening bytes |
| LazyTc.PackSplit | timed_commitments/src/lazy_tc.rs:117-122 | packing the two parts of a split gives back the packed message |
| LazyTc.PedersenRecover | timed_commitments/src/lazy_tc.rs:117-124 | succeeds iff the scalar decoding and the Pedersen check succeed; the message is the head of the split, and `pedValid` is the answer of the Pedersen check on that head and the decoded opening; a failing decoding or check returns that collaborator's own error |
| LazyTc.Commit | timed_commitments/src/lazy_tc.rs:53-71 | succeeds iff the Pedersen and timed commitments succeed; the commitment pairs both, and the opening carries Some(m ++ opening bytes); a failing Pedersen or timed commitment's error is returned unchanged |
| LazyTc.ForceOpen | timed_commitments/src/lazy_tc.rs:73-98 | reports Some(unpacked m) iff a message was forced and the Pedersen check passes, otherwise None; the opening always carries the forced tc_m; the error of a failing forcing or unpacking is returned unchanged |
| LazyTc.VerOpen | timed_commitments/src/lazy_tc.rs:100-132 | with tc_m and claim Some(m): accept iff tc_valid ∧ ped_valid ∧ unpacked == m; with claim None: iff tc_valid ∧ ¬ped_valid; without tc_m: iff tc_valid ∧ the claim is None; the error of a failing timed check or unpacking is returned unchanged |
| LazyTc.SelfOpeningAccepted | timed_commitments/src/lazy_tc.rs:193-206 | with honest collaborators, the committer's own opening is accepted for the committed message |
| LazyTc.OtherMessageRejected | timed_commitments/src/lazy_tc.rs:208-230 | a claimed message other than the unpacked one is never accepted |
| LazyTc.AbsentClaimRejected | timed_commitments/src/lazy_tc.rs:208-230 | claiming "no message" is rejected when the Pedersen check passes |
| LazyTc.TamperedMessageRejected | timed_commitments/src/lazy_tc.rs:208-230 | any altered message is rejected under the self-opening and under a forced opening carrying the same tc_m |
| LazyTc.ForcedOpeningAccepted | timed_commitments/src/lazy_tc.rs:248-292 | whatever `force_open` reports, including None for a bad Pedersen part, is accepted when the timed check accepts |
| LazyTc.AtMostOneClaimAccepted | timed_commitments/src/lazy_tc.rs:125-130 | an opening accepts at most one claim |
| LazyTc.VerOpenAsWritten | timed_commitments/src/lazy_tc.rs:108-122 | crashes (`None`) exactly when the timed check returns Ok and the packed message is shorter than f_bytes; a timed-check error propagates; otherwise it is `VerOpen` |
| LazyTc.ShortOpeningCrashes | timed_commitments/src/lazy_tc.rs:108-122 | with f_bytes > 0, an opening carrying an empty packed message crashes `ver_open` even though the timed check answered false |
| LazyTc.VerOpenChecked | timed_commitments/src/lazy_tc.rs:100-132 | total: a packed message too short to unpack is rejected (Ok(false), or the timed check's own error returned unchanged), every other opening is decided as `VerOpen` decides it |
| LazyTc.CheckedAgreesWhereDefined | timed_commitments/src/lazy_tc.rs:100-132 | wherever the code as written does not crash, the checked version gives the same answer |
| LazyTc.CheckedAtMostOneClaimAccepted | timed_commitments/src/lazy_tc.rs:125-130 | the checked version accepts at most one claim for every opening, with no length precondition |
| LazyTc.ForceOpenRecoversMessage | timed_commitments/src/lazy_tc.rs:79-91 | forcing an honest commitment that yields back its tc_m recovers Some(m) |
| Solidity.PadLength | solidity/src/lib.rs:361 | the padded length is a multiple of 32 with len <= out < len + 32 |
| Solidity.PaddedTo32 | solidity/src/lib.rs:360-367 | requires a nonempty input; the output is zero bytes followed by the input, with length PadLength |
| Solidity.PaddedTo32Least | solidity/src/lib.rs:361 | no shorter multiple of 32 holds the input |
| Solidity.PaddedTo32Idempotent | solidity/src/lib.rs:360-367 | a nonempty input whose length is a multiple of 32 comes back unchanged |
| Solidity.PaddedTo32Value | solidity/src/lib.rs:360-367 | padding keeps the big-endian value |
| Solidity.Reverse | solidity/src/lib.rs:362 | in-place reversal: the array becomes its old contents back to front |
| Solidity.Resize | solidity/src/lib.rs:363 | the result holds the old contents followed by zeros up to the new length |
| Solidity.ReversedPadding | solidity/src/lib.rs:362-365 | reverse, zero-extend, reverse is left padding with zeros |
| Solidity.PadTo32ByteOffset | solidity/src/lib.rs:360-367 | the reverse / resize / reverse method computes exactly PaddedTo32 |
| Solidity.EncodeBigint | solidity/src/lib.rs:310-315 | a (Bytes, Bool) tuple whose flag is true iff n < 0 |
| Solidity.EncodeBigintMagnitude | solidity/src/lib.rs:310-315 | the bytes have exactly the padded length of `to_bytes_be` of abs(n) (the least multiple of 32 holding it) and hold abs(n) big-endian |
| Solidity.BigintRoundTrip | solidity/src/lib.rs:310-315 | decoding the token gives back n |
| Solidity.EncodeRsaElement | solidity/src/lib.rs:317-319 | a one-field tuple whose field is `encode_bigint` of the element's value, and so decodes to it |
| Solidity.RsaElementRoundTrip | solidity/src/lib.rs:317-319 | decoding gives back the element |
| Solidity.EncodeStepCertificate | solidity/src/lib.rs:321-339 | Some iff every optional witness is present (an `unwrap` panics otherwise), and then a 15-field tuple: `encode_bigint(f)`, `Uint(n)`, `Uint(n2)`, then `encode_bigint` of each of the twelve big-integer fields in source order |
| Solidity.EncodeBigints | solidity/src/lib.rs:324-338 | each integer is encoded in place, in order |
| Solidity.BigintsRoundTrip | solidity/src/lib.rs:324-338 | a run of encoded integers decodes back to the integers |
| Solidity.StepCertificateRoundTrip | solidity/src/lib.rs:321-339 | every field of a complete step comes back from its token, in the encoder's order |
| Solidity.EncodeSteps | solidity/src/lib.rs:342-347 | Some iff every step is complete; then the i-th token encodes the i-th step |
| Solidity.StepsRoundTrip | solidity/src/lib.rs:342-347 | the encoded steps decode back to the steps |
| Solidity.EncodePocklingtonCertificate | solidity/src/lib.rs:341-349 | a 2-tuple: an array of the step tokens in their original order, then Uint(nonce); Some iff every step is complete |
| Solidity.PocklingtonCertificateRoundTrip | solidity/src/lib.rs:341-349 | decoding gives back the certificate |
| Solidity.EncodePoeProof | solidity/src/lib.rs:351-358 | the tuple (encoded q, encoded certificate); Some iff the certificate encodes |
| Solidity.PoeProofRoundTrip | solidity/src/lib.rs:351-358 | decoding gives back the proof |
| Solidity.HexLimbBase | solidity/src/lib.rs:179-182 | sixteen hex digits span one 64-bit limb |
| Solidity.LimbsHex | solidity/src/lib.rs:179-182 | limbs written high to low: 16 characters per limb, every one a lowercase hex digit |
| Solidity.LimbsHexUnique | solidity/src/lib.rs:179-182 | the limbs' text is the only hex-digit text of that length with the limbs' value |
| Solidity.LimbsHexValue | solidity/src/lib.rs:179-182 | read as a hex number, the limbs' text is the limbs' value |
| Solidity.LimbsHexAppend | solidity/src/lib.rs:175-182 | lower limbs are written after higher ones |
| Solidity.LimbsHexFour | solidity/src/lib.rs:179-182 | a chunk's text is limb 3, then 2, then 1, then 0 |
| Solidity.Words | solidity/src/lib.rs:175 | one word per chunk of four limbs, most significant chunk first (`chunks(4).rev()`) |
| Solidity.Entry | solidity/src/lib.rs:176-183 | the i-th line is `m_u256_digits[i] = 0x<i-th word>;` |
| Solidity.Entries | solidity/src/lib.rs:175-183 | the i-th entry is the i-th line |
| Solidity.JoinLength | solidity/src/lib.rs:184-186 | joining puts exactly one separator fewer than there are entries |
| Solidity.JoinEndsWithLast | solidity/src/lib.rs:184-186 | no separator follows the last entry |
| Solidity.WordValue | solidity/src/lib.rs:175-182 | the i-th emitted word is the text of the i-th chunk from the top: 64 hex digits whose value is c[0] + 2^64·(c[1] + 2^64·(c[2] + 2^64·c[3])) |
| Solidity.LowestWordValue | solidity/src/lib.rs:175-182 | the last emitted word holds the low 256 bits of the value, and the remaining limbs account for the rest, times 2^256 |
| Bigint.LimbsValueFour | solidity/src/lib.rs:179-182 | four limbs are worth c[0] + 2^64·(c[1] + 2^64·(c[2] + 2^64·c[3])) |
| Solidity.WordsDropLowest | solidity/src/lib.rs:175 | dropping the lowest chunk drops the last emitted word |
| Solidity.WordsValue | solidity/src/lib.rs:174-188 | the emitted words run together are the hex text of all limbs, and their value is the limbs' value |
| Solidity.ModulusWordsValue | solidity/src/lib.rs:174-188 | the emitted words, read as one hex number, are the magnitude of m (abs(m)) |
| Solidity.JoinPrefixStep | solidity/src/lib.rs:176-186 | one iteration extends the joined prefix by the next entry and, unless it is the last, a separator |
| Solidity.PopulateModulusDigits | solidity/src/lib.rs:174-188 | requires the limb count to be a multiple of 4; the loop's text is the entries joined by newline plus eight spaces, with none after the last |
| Hex.HexDigit | solidity/src/lib.rs:179-182 | a digit below 16 becomes a hex digit character of that value |
| Hex.HexValueAppend | solidity/src/lib.rs:177-182 | hex text concatenates as value·16^len + value |
| Hex.HexEncode | solidity/src/lib.rs:179-182 | `hex::encode` writes two characters per byte, every one a lowercase hex digit |
| Hex.HexTextUnique | solidity/src/lib.rs:179-182 | two hex-digit texts of the same length and value are equal |
| Hex.HexEncodeValue | solidity/src/lib.rs:179-182 | the hex text of bytes, read as a number, is their big-endian value |
| Hex.FixedBe | solidity/src/lib.rs:179-182 | k bytes, big-endian, holding x when x < 256^k |
| Hex.ToBeBytes | solidity/src/lib.rs:179-182 | `to_be_bytes` gives 8 bytes whose big-endian value is the limb |
| Hex.Hex16 | solidity/src/lib.rs:179-182 | a limb's text has 16 characters, every one a lowercase hex digit |
| Hex.Hex16Value | solidity/src/lib.rs:179-182 | a limb's 16 hex digits read back as the limb |
| Hex.Hex16Unique | solidity/src/lib.rs:179-182 | a limb's text is the only 16-hex-digit text with the limb's value |
| Hex.Decimal | solidity/src/lib.rs:178 | `{}` of the index: nonempty decimal digits whose value is the index, starting with '0' only when the text is exactly "0" |

## Left out

- LazyTc.ForceOpen: requires the forced packed message to be at least f_bytes long (`ForceOpenUnpackable`). The source subtracts `m.len() - f_bytes` at timed_commitments/src/lazy_tc.rs:86 and crashes on a shorter one. The model does not say what happens in that case.
- LazyTc.VerOpen: requires a packed message at least f_bytes long; the crash on a shorter one is modelled separately by `VerOpenAsWritten` (see Findings).

- **The benchmark.** `solidity/benches/bench_auction_house.rs` is not part of this model. It covers EVM deployment, timing, sleeping, CSV output and floating-point statistics.
- **File I/O and templating in `get_rsa_library_src`.** File reading, the quote escaping and the `<%pp_m_len%>` substitution are I/O and string templating around the modelled loop. The other `get_*_library_src` functions are left out for the same reason.
- **Other encoders in `solidity/src/lib.rs`.** Keccak hashing, curve-point and field-element encoders, and the bulletproofs template wrap foreign elliptic-curve and hash code.
- **The collaborators of `LazyTC`.**
  - `BasicTC`, the Pedersen commitment, `nat_to_f` and `into_repr().to_bytes_le()` are not modelled. They are the uninterpreted functions of `LazyTc.Backend`, and a failing call is an `Err` result.
  - The random choice inside `PedersenComm::commit` is a parameter: its result is passed to `LazyTc.Commit`.
  - The randomness of `BasicTC::commit` is fixed inside the backend.
  - `f_bytes` (`NUM_LIMBS * 8`) is a backend constant.
- **Parameter generation in `LazyTC`.** `gen_pedersen_params`, `gen_time_params` and `ver_time_params` only delegate to those collaborators.
- **Local vectors in `LazyTC`.** The `append` and `split_off` in `commit`, `force_open` and `ver_open` work on local vectors nobody else sees. The model uses sequence concatenation and slicing instead.
- **`hog::constraints` and the `Hash` impls.** The first is circuit gadgets and is not part of this model. The second is hasher plumbing; equality of elements is equality of `n`.
- **Concrete test moduli.** The 2048-bit test moduli are replaced by a symbolic M > 1.
- **`crate::bigint::extended_euclidean_gcd`.** It is not part of this model. `Bigint.ExtendedEuclideanGcd` is a textbook version with a non-negative gcd, and for b > 0 coefficients with abs(x) <= b and abs(y) <= max(a, 1). The `+M` shift and `from_nat` in `inverse` rely on that bound.
- **Negative inputs.**
  - RsaHog.Generator: G is taken as a non-negative integer. A negative G from the parameter trait is not modelled.
  - RsaHog.Power: the exponent is taken as non-negative. `modpow` panics on a negative exponent, which the model does not reach.
  - UnsignedRsaHog.Power: the exponent is taken as non-negative, for the same reason.
- **Unused token variants.** `Solidity.Token` has only the `ethabi::Token` variants these encoders produce.
- **U256 width.** The U256 range limit on `Uint` (n, n2 and the nonce) is not modelled.
- **Decoders.** The functions that decode tokens back (`DecodeBigint`, `DecodeSteps` and the others) are reference inverses for the round-trip lemmas. They have no counterpart in the source.

## Findings

| source | as written | input that shows it | evidently intended | confidence | as-written member | corrected member |
|---|---|---|---|---|---|---|
| timed_commitments/src/lazy_tc.rs:115-122 | `ver_open` splits `m_computed.len() - f_bytes` after the timed check has answered, without checking the length, so a packed message shorter than f_bytes makes the subtraction underflow (a panic) | an opening with `tc_m = Some(vec![])` for a scalar field with f_bytes > 0, on which `BasicTC::ver_open` returns Ok(false); the fields of `Opening` are private, `commit` always builds a tc_m of length len(m) + f_bytes and `force_open` panics at line 86 before returning a short one, so such an opening can only come from code inside the module, or from code that is not part of this model | a verifier rejects a malformed opening rather than crashing: Ok(false) (or the timed-check error) | medium; not executed | LazyTc.VerOpenAsWritten | LazyTc.VerOpenChecked |
