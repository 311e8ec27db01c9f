/** Optional values and the aborts of the verifier.

    The contract aborts (`panic!`, or `unwrap` of a missing value) at six
    places. Each is one constructor of `Error`, so that an outcome names the
    place that stopped the call; a proof that does not satisfy the pairing
    equation is not an error but the result `Success(false)`. */
module Outcome {

  /** A value that may be absent, as returned by a decoder. */
  datatype Option<+T> = None | Some(value: T)

  /** The places where a verification call aborts. */
  datatype Error =
    | MalformedKey                   // aggregate_inputs: input count does not fit gamma_abc_g1
    | InvalidVerifyingKey            // verify: key bytes do not hash to the pinned hash
    | ProofDecodeFailed              // verify: `unwrap` of the proof decoding
    | KeyDecodeFailed                // verify: `unwrap` of the key decoding
    | InputNotBytes(index: nat)      // verify: `unwrap` of a public-input entry that is not a byte buffer
    | InputDecodeFailed(index: nat)  // verify: `unwrap` of a scalar decoding

  /** The outcome of a call that either returns a value or aborts. */
  datatype Result<+T> = Success(value: T) | Failure(error: Error)
}
