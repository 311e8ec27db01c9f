/** The verifier contract: a pinned hash of the trusted verifying key, and a
    `Verify` that checks the key bytes against it, decodes the proof, the key
    and the public inputs, and runs the Groth16 pairing check.

    The host's SHA-256 is the field `sha256` of `Env`; the canonical decoders
    of the curve library are the fields of `Codec`. Both are arbitrary
    functions, so each property below holds whatever they compute. */
module Groth16Verifier {
  import opened Algebra
  import opened Outcome
  import opened Types
  import VerifyUtils

  newtype byte = x: int | 0 <= x < 256

  /** A SHA-256 digest. */
  type Digest = s: seq<byte> | |s| == 32 witness seq(32, _ => 0 as byte)

  /** What the verifier uses of the host environment. */
  datatype Env = Env(sha256: seq<byte> -> Digest)

  /** The uncompressed canonical decoders of the curve library. */
  datatype Codec = Codec(
    decodeProof: seq<byte> -> Option<Proof>,
    decodeKey: seq<byte> -> Option<VerifyingKey>,
    decodeFr: seq<byte> -> Option<Fr>)

  /** Copies a host byte buffer into a local buffer of the same length. */
  method CopyIntoSlice(src: seq<byte>, dst: array<byte>)
    requires dst.Length == |src|
    modifies dst
    ensures dst[..] == src
  {
    forall k | 0 <= k < dst.Length {
      dst[k] := src[k];
    }
  }

  /** A public-input entry is a byte buffer that decodes to a scalar. */
  predicate InputDecodes(codec: Codec, image: Option<seq<byte>>) {
    image.Some? && codec.decodeFr(image.value).Some?
  }

  /** Decodes the public inputs in order into a vector, aborting at the first
      entry that is not a byte buffer or does not decode. */
  function DecodeInputs(codec: Codec, images: seq<Option<seq<byte>>>): (r: Result<seq<Fr>>)
    ensures r.Success? ==> |r.value| == |images|
    ensures r.Failure? ==> (r.error.InputNotBytes? || r.error.InputDecodeFailed?) && r.error.index < |images|
    decreases |images|
  {
    if images == [] then Success([])
    else
      var k := |images| - 1;
      match DecodeInputs(codec, images[..k])
      case Failure(e) => Failure(e)
      case Success(xs) =>
        if images[k].None? then Failure(InputNotBytes(k))
        else match codec.decodeFr(images[k].value)
          case None => Failure(InputDecodeFailed(k))
          case Some(x) => Success(xs + [x])
  }

  /** `vimage` holds, in order, the scalars the entries of `images` decode to. */
  ghost predicate DecodesTo(codec: Codec, images: seq<Option<seq<byte>>>, vimage: seq<Fr>) {
    && |vimage| == |images|
    && forall k :: 0 <= k < |images| ==>
         InputDecodes(codec, images[k]) && vimage[k] == codec.decodeFr(images[k].value).value
  }

  /** Decoding succeeds exactly when every entry decodes, and then yields
      the entries' scalars in their order. */
  lemma {:induction false} DecodeInputsSucceeds(codec: Codec, images: seq<Option<seq<byte>>>)
    ensures DecodeInputs(codec, images).Success?
        <==> forall k :: 0 <= k < |images| ==> InputDecodes(codec, images[k])
    ensures DecodeInputs(codec, images).Success? ==>
      DecodesTo(codec, images, DecodeInputs(codec, images).value)
    decreases |images|
  {
    if images != [] {
      var k := |images| - 1;
      var prefix := images[..k];
      DecodeInputsSucceeds(codec, prefix);
      assert forall j :: 0 <= j < k ==> prefix[j] == images[j];
    }
  }

  /** Decoding reports the first entry that fails, by its index, as an entry
      that is not a byte buffer or as one that does not decode. */
  lemma {:induction false} DecodeInputsFirstFailure(codec: Codec, images: seq<Option<seq<byte>>>, k: nat)
    requires k < |images|
    requires forall j :: 0 <= j < k ==> InputDecodes(codec, images[j])
    requires !InputDecodes(codec, images[k])
    ensures DecodeInputs(codec, images)
         == Failure(if images[k].None? then InputNotBytes(k) else InputDecodeFailed(k))
    decreases |images|
  {
    var last := |images| - 1;
    var prefix := images[..last];
    if k == last {
      DecodeInputsSucceeds(codec, prefix);
    } else {
      DecodeInputsFirstFailure(codec, prefix, k);
    }
  }

  /** What a call to `verify` yields for given host, curve and decoders. */
  function VerifyOutcome(vkHash: Digest, env: Env, curve: Curve, codec: Codec,
                         keyBytes: seq<byte>, proofBytes: seq<byte>,
                         imageVbytes: seq<Option<seq<byte>>>): Result<bool>
  {
    if env.sha256(keyBytes) != vkHash then Failure(InvalidVerifyingKey)
    else match codec.decodeProof(proofBytes)
      case None => Failure(ProofDecodeFailed)
      case Some(proof) =>
        match codec.decodeKey(keyBytes)
        case None => Failure(KeyDecodeFailed)
        case Some(vk) =>
          var prepVk := VerifyUtils.PrepareVk(curve, vk);
          match DecodeInputs(codec, imageVbytes)
          case Failure(e) => Failure(e)
          case Success(vimage) => VerifyUtils.Groth16Outcome(curve, proof, prepVk, vimage)
  }

  /** The key-hash gate comes first and is decided on the raw key bytes:
      the call aborts with `InvalidVerifyingKey` exactly when their hash
      differs from the pinned one, whatever the decoders and the curve do,
      and no later step reports that error. */
  lemma HashGateFirst(vkHash: Digest, env: Env, curve: Curve, codec: Codec,
                      keyBytes: seq<byte>, proofBytes: seq<byte>, imageVbytes: seq<Option<seq<byte>>>)
    ensures VerifyOutcome(vkHash, env, curve, codec, keyBytes, proofBytes, imageVbytes) == Failure(InvalidVerifyingKey)
        <==> env.sha256(keyBytes) != vkHash
  {
  }

  /** Past the hash gate the steps run in order, and the first one that fails
      decides the outcome: the proof is decoded before the key, the key before
      the inputs, the inputs one by one, and the input count is checked
      against the key only once every input has decoded. */
  lemma DecodeOrder(vkHash: Digest, env: Env, curve: Curve, codec: Codec,
                    keyBytes: seq<byte>, proofBytes: seq<byte>, imageVbytes: seq<Option<seq<byte>>>, k: nat)
    requires env.sha256(keyBytes) == vkHash
    ensures codec.decodeProof(proofBytes).None? ==>
      VerifyOutcome(vkHash, env, curve, codec, keyBytes, proofBytes, imageVbytes) == Failure(ProofDecodeFailed)
    ensures codec.decodeProof(proofBytes).Some? && codec.decodeKey(keyBytes).None? ==>
      VerifyOutcome(vkHash, env, curve, codec, keyBytes, proofBytes, imageVbytes) == Failure(KeyDecodeFailed)
    ensures && codec.decodeProof(proofBytes).Some? && codec.decodeKey(keyBytes).Some?
            && k < |imageVbytes| && !InputDecodes(codec, imageVbytes[k])
            && (forall j :: 0 <= j < k ==> InputDecodes(codec, imageVbytes[j])) ==>
      VerifyOutcome(vkHash, env, curve, codec, keyBytes, proofBytes, imageVbytes)
      == Failure(if imageVbytes[k].None? then InputNotBytes(k) else InputDecodeFailed(k))
    ensures && codec.decodeProof(proofBytes).Some? && codec.decodeKey(keyBytes).Some?
            && (forall j :: 0 <= j < |imageVbytes| ==> InputDecodes(codec, imageVbytes[j]))
            && |imageVbytes| + 1 != |codec.decodeKey(keyBytes).value.gammaAbcG1| ==>
      VerifyOutcome(vkHash, env, curve, codec, keyBytes, proofBytes, imageVbytes) == Failure(MalformedKey)
  {
    if k < |imageVbytes| && !InputDecodes(codec, imageVbytes[k])
       && (forall j :: 0 <= j < k ==> InputDecodes(codec, imageVbytes[j])) {
      DecodeInputsFirstFailure(codec, imageVbytes, k);
    }
    DecodeInputsSucceeds(codec, imageVbytes);
  }

  /** When every gate passes, the call is the Groth16 check of the decoded
      proof, against the prepared decoded key, on the decoded inputs in their
      order. */
  lemma Delegation(vkHash: Digest, env: Env, curve: Curve, codec: Codec,
                   keyBytes: seq<byte>, proofBytes: seq<byte>, imageVbytes: seq<Option<seq<byte>>>,
                   proof: Proof, vk: VerifyingKey, vimage: seq<Fr>)
    requires env.sha256(keyBytes) == vkHash
    requires codec.decodeProof(proofBytes) == Some(proof) && codec.decodeKey(keyBytes) == Some(vk)
    requires DecodesTo(codec, imageVbytes, vimage)
    ensures VerifyOutcome(vkHash, env, curve, codec, keyBytes, proofBytes, imageVbytes)
         == VerifyUtils.Groth16Outcome(curve, proof, VerifyUtils.PrepareVk(curve, vk), vimage)
  {
    DecodeInputsSucceeds(codec, imageVbytes);
    assert DecodeInputs(codec, imageVbytes).value == vimage;
  }

  /** End to end, for a curve whose target group commutes and whose pairing
      turns negation into inversion: a call with a trusted key and decodable
      data returns `true` exactly when the proof satisfies
      e(A, B) = e(alpha, beta)·e(L, gamma)·e(C, delta), with L the key's
      combination of the inputs; a wrong input count aborts instead. */
  lemma AcceptsExactlyGroth16Proofs(vkHash: Digest, env: Env, curve: Curve, codec: Codec,
                                    keyBytes: seq<byte>, proofBytes: seq<byte>,
                                    imageVbytes: seq<Option<seq<byte>>>,
                                    proof: Proof, vk: VerifyingKey, vimage: seq<Fr>)
    requires GtRightCommutative(curve) && NegationInvertsPairing(curve)
    requires env.sha256(keyBytes) == vkHash
    requires codec.decodeProof(proofBytes) == Some(proof) && codec.decodeKey(keyBytes) == Some(vk)
    requires DecodesTo(codec, imageVbytes, vimage)
    ensures |vimage| + 1 != |vk.gammaAbcG1| ==>
      VerifyOutcome(vkHash, env, curve, codec, keyBytes, proofBytes, imageVbytes) == Failure(MalformedKey)
    ensures |vimage| + 1 == |vk.gammaAbcG1| ==>
      VerifyOutcome(vkHash, env, curve, codec, keyBytes, proofBytes, imageVbytes) ==
      Success(curve.pairing(proof.a, proof.b) ==
              curve.gtMul(curve.gtMul(curve.pairing(vk.alphaG1, vk.betaG2),
                                      curve.pairing(VerifyUtils.InputCombination(curve, vk.gammaAbcG1, vimage, |vimage|), vk.gammaG2)),
                          curve.pairing(proof.c, vk.deltaG2)))
  {
    Delegation(vkHash, env, curve, codec, keyBytes, proofBytes, imageVbytes, proof, vk, vimage);
    if |vimage| + 1 == |vk.gammaAbcG1| {
      VerifyUtils.NegatedCheckIsGroth16Equation(curve, proof, VerifyUtils.PrepareVk(curve, vk), vimage);
    }
  }

  /** The verifier contract. Its only state is the hash of the trusted key,
      fixed when the verifier is loaded. */
  class SorobanGroth16Verifier {
    const vkHash: Digest

    constructor LoadWithVkHash(hash: Digest)
      ensures vkHash == hash
    {
      vkHash := hash;
    }

    /** Checks a proof against the key whose hash is pinned. The public
        inputs arrive as host values, `None` standing for one that is not a
        byte buffer. */
    method Verify(env: Env, curve: Curve, codec: Codec, keyBytes: seq<byte>, proofBytes: seq<byte>,
                  imageVbytes: seq<Option<seq<byte>>>) returns (r: Result<bool>)
      ensures r == VerifyOutcome(vkHash, env, curve, codec, keyBytes, proofBytes, imageVbytes)
    {
      var hashSlice := new byte[32];
      CopyIntoSlice(vkHash, hashSlice);
      if env.sha256(keyBytes) != hashSlice[..] {
        return Failure(InvalidVerifyingKey);
      }

      var bvec := new byte[|proofBytes|];
      CopyIntoSlice(proofBytes, bvec);
      var proof := codec.decodeProof(bvec[..]);
      if proof.None? {
        return Failure(ProofDecodeFailed);
      }

      var kBvec := new byte[|keyBytes|];
      CopyIntoSlice(keyBytes, kBvec);
      var vk := codec.decodeKey(kBvec[..]);
      if vk.None? {
        return Failure(KeyDecodeFailed);
      }

      var prepVk := VerifyUtils.PrepareVk(curve, vk.value);

      var vimage: seq<Fr> := [];
      for k := 0 to |imageVbytes|
        invariant DecodeInputs(codec, imageVbytes[..k]) == Success(vimage)
      {
        var imageBytes := imageVbytes[k];
        DecodeInputsSucceeds(codec, imageVbytes[..k]);
        assert forall j :: 0 <= j < k ==> imageVbytes[..k][j] == imageVbytes[j];
        if imageBytes.None? {
          DecodeInputsFirstFailure(codec, imageVbytes, k);
          return Failure(InputNotBytes(k));
        }
        var iBvec := new byte[|imageBytes.value|];
        CopyIntoSlice(imageBytes.value, iBvec);
        var fr := codec.decodeFr(iBvec[..]);
        if fr.None? {
          DecodeInputsFirstFailure(codec, imageVbytes, k);
          return Failure(InputDecodeFailed(k));
        }
        vimage := vimage + [fr.value];
        assert imageVbytes[..k + 1][..k] == imageVbytes[..k];
      }
      assert imageVbytes[..|imageVbytes|] == imageVbytes;

      r := VerifyUtils.Verify(curve, proof.value, prepVk, vimage);
    }
  }
}
