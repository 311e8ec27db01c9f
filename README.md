# Groth16 verifier for Soroban — a Dafny model

This project models the verifier of the `groth-16-verifier` crate: a Soroban
contract helper that checks a Groth16 proof (Groth, "On the Size of
Pairing-based Non-interactive Arguments", EUROCRYPT 2016) over BLS12-377.
The verifier holds one piece of state, the SHA-256 hash of the verifying key
it trusts. A call hashes the raw key bytes and aborts unless the hash matches.
It then decodes the proof, decodes the key, prepares the key, and decodes the
public inputs one by one. Finally it runs the pairing check
e(A, B)·e(L, -gamma)·e(C, -delta) = e(alpha, beta), where
L = gamma_abc_g1[0] + Σ inputs[i]·gamma_abc_g1[i+1].

The curve library, the decoders and the host's SHA-256 are not part of the
model. They appear as arbitrary total functions, passed in as records:
`Algebra.Curve` for the group operations and the pairing, `Groth16Verifier.Codec`
for the decoders, and `Groth16Verifier.Env` for the hash. Every property below
holds whatever those functions compute, except for two lemmas. Those two relate
the negated check to the textbook equation, and they assume two stated facts
about the target group (`GtRightCommutative`, `NegationInvertsPairing`).

Each `panic!` and each failing `unwrap` of the source is one constructor of
`Outcome.Error`. The call returns `Result<bool>` instead of aborting, and a
proof that fails the equation returns `Success(false)`.

Files, one module each:

- `outcome.dfy` holds `Option`, the six aborts and `Result`.
- `algebra.dfy` holds the opaque groups G1, G2, GT and the scalars Fr, the `Curve` record, and the two group hypotheses.
- `types.dfy` models `types.rs`: `Proof`, `VerifyingKey`, `PreparedVK` with the predicate `PreparedOver` (the documented meaning of its cached fields), and the serialized field order as a sequence of elements.
- `verify_utils.dfy` models `verify_utils.rs`: input aggregation, key preparation, the equation, and `verify`.
- `verifier.dfy` models `lib.rs`: the class `SorobanGroth16Verifier`, the decoding of the inputs, and the specification `VerifyOutcome` of a whole call with its lemmas.

## Model

| member | source | states |
|---|---|---|
| `Types.ProofLayout` | groth-16-verifier/src/types.rs:5-14 | a proof is written as `a`, `b`, `c` in that order; reading from the front, as `deserialize_uncompressed` does, yields a given proof exactly when the input starts with that proof's layout, whatever follows |
| `Types.KeyLayout` | groth-16-verifier/src/types.rs:16-29 | a key is written as `alpha_g1`, `beta_g2`, `gamma_g2`, `delta_g2`, then the length of `gamma_abc_g1` and its points in order; reading from the front yields a given key exactly when the input starts with that key's layout, whatever follows |
| `VerifyUtils.PreparedKeyIsUnique` | groth-16-verifier/src/types.rs:31-41 | any prepared key whose cached fields mean e(alpha, beta), -gamma and -delta of its key is the one `prepare_vk` builds for that key |
| `VerifyUtils.Zip` | groth-16-verifier/src/verify_utils.rs:21-23 | zipping yields as many pairs as the shorter side, and pair k holds element k of each side |
| `VerifyUtils.ZipSkipPairsInputWithNextPoint` | groth-16-verifier/src/verify_utils.rs:16-25 | once the length gate has passed, zipping the inputs with `skip(1)` of the points visits exactly one pair per input and pairs input i with point i+1, never reading past either side |
| `VerifyUtils.AggregateInputs` | groth-16-verifier/src/verify_utils.rs:12-29 | aborts with `MalformedKey` exactly when the number of inputs plus one differs from the number of `gamma_abc_g1` points, before any group operation; otherwise returns gamma_abc_g1[0] + Σ inputs[i]·gamma_abc_g1[i+1] accumulated left to right (loop invariant: after k pairs, the sum of the first k terms); with no inputs and one point, the point itself |
| `VerifyUtils.PrepareVk` | groth-16-verifier/src/verify_utils.rs:32-42 | the prepared key carries the key unchanged, and its cached fields are e(alpha_g1, beta_g2), -gamma_g2 and -delta_g2 |
| `VerifyUtils.VerifyEq` | groth-16-verifier/src/verify_utils.rs:45-56 | true exactly when (e_a_b · e_l_ngamma) · e_c_ndelta equals e_alpha_beta, multiplied in that order |
| `VerifyUtils.Verify` | groth-16-verifier/src/verify_utils.rs:59-66 | aggregates first (inheriting its abort), then pairs A with B, the aggregate with gamma_neg and C with delta_neg, and evaluates the equation against e_alpha_beta |
| `VerifyUtils.Groth16OutcomeOnPreparedKey` | groth-16-verifier/src/verify_utils.rs:59-65 | on a prepared key the check aborts only with `MalformedKey` and exactly on an input-count mismatch; otherwise it is e(A,B)·e(L,-gamma)·e(C,-delta) = e(alpha,beta) for the key's own points |
| `VerifyUtils.NegatedCheckIsGroth16Equation` | groth-16-verifier/src/verify_utils.rs:44-56 | under the two group hypotheses, the negated check accepts exactly the proofs with e(A,B) = e(alpha,beta)·e(L,gamma)·e(C,delta) |
| `Groth16Verifier.SorobanGroth16Verifier.LoadWithVkHash` | groth-16-verifier/src/lib.rs:21-23 | the verifier stores the given hash unchanged; the field is constant, so no call changes it |
| `Groth16Verifier.CopyIntoSlice` | groth-16-verifier/src/lib.rs:40-42 | the local buffer ends up with the host buffer's length and contents |
| `Groth16Verifier.DecodeInputs` | groth-16-verifier/src/lib.rs:54-63 | a decoded input vector has one scalar per entry; a failure is an input error naming an index inside the list |
| `Groth16Verifier.DecodeInputsSucceeds` | groth-16-verifier/src/lib.rs:54-63 | decoding succeeds exactly when every entry is a byte buffer that decodes, and then element i of the vector is the decoding of entry i |
| `Groth16Verifier.DecodeInputsFirstFailure` | groth-16-verifier/src/lib.rs:56-62 | decoding aborts at the first entry that fails, reporting its index and whether it was not a byte buffer or did not decode |
| `Groth16Verifier.SorobanGroth16Verifier.Verify` | groth-16-verifier/src/lib.rs:25-66 | the step-by-step call (buffer copies, early aborts, input loop pushing onto the vector) yields exactly `VerifyOutcome` |
| `Groth16Verifier.HashGateFirst` | groth-16-verifier/src/lib.rs:32-37 | the call aborts with `InvalidVerifyingKey` exactly when SHA-256 of the raw key bytes differs from the pinned hash, for every decoder and curve, so the gate is decided before and without any decoding |
| `Groth16Verifier.DecodeOrder` | groth-16-verifier/src/lib.rs:39-63 | past the gate, a bad proof aborts before the key is looked at, a bad key before any input, the first bad input before later ones, and the input-count check only after all inputs decode |
| `Groth16Verifier.Delegation` | groth-16-verifier/src/lib.rs:52-65 | when every gate passes, the call is `verify` on the decoded proof, the prepared decoded key and the decoded inputs in their order |
| `Groth16Verifier.AcceptsExactlyGroth16Proofs` | groth-16-verifier/src/lib.rs:25-66 | end to end, under the two group hypotheses: with a trusted, decodable key and decodable data the call returns true exactly when e(A,B) = e(alpha,beta)·e(L,gamma)·e(C,delta), and aborts with `MalformedKey` on a wrong input count |

## Left out

- Elliptic-curve, pairing and Fq12 arithmetic: these are opaque functions. No cryptographic soundness or completeness is claimed, because those need the curve's algebra and hardness assumptions. Affine and projective forms of a point are the same value, so `into_projective` and `into_repr` do nothing.
- Byte-level canonical (de)serialization: the decoders are arbitrary partial functions. The field order is modelled on element sequences (`Types.ProofLayout`, `Types.KeyLayout`, with the vector length written before its points, as the derived serialization of a vector does), not on bytes. No byte round-trip is claimed.
- SHA-256 is an arbitrary function to 32-byte digests.
- Soroban plumbing: `Env`, and the `Bytes`, `BytesN` and `Vec` host handles. It also covers the 32-bit length conversions `len as usize`. A public-input entry that cannot be read as `Bytes` appears as `None`.
- The `wee_alloc` global allocator and the `no_std` setup.
- `proof_wrap.rs` (`build_proof`) parses decimal strings into points through `key_wrap.rs`. `key_wrap.rs` is not part of this model.
- `test.rs`: its end-to-end vector depends on `TestVerifier`, which is not part of this model, and on concrete curve arithmetic.
- Aborts become `Result` values. The code aborts the whole contract call instead.

## Notes

- The call order is the code's. It decodes the proof before the key, and it prepares the key before it decodes the public inputs.
- Key preparation cannot fail, so its place before the input loop shows only in the order of statements in `SorobanGroth16Verifier.Verify`, not in any outcome.
