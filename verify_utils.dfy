/** The Groth16 pairing check: aggregation of the public inputs, preparation
    of the verifying key, and the final equation. */
module VerifyUtils {
  import opened Algebra
  import opened Outcome
  import opened Types

  /** Pairs up two sequences element by element, stopping at the end of the
      shorter one, as an iterator `zip` does. */
  function Zip<A, B>(xs: seq<A>, ys: seq<B>): (z: seq<(A, B)>)
    ensures |z| == if |xs| <= |ys| then |xs| else |ys|
    ensures forall k :: 0 <= k < |z| ==> z[k] == (xs[k], ys[k])
  {
    if xs == [] || ys == [] then [] else [(xs[0], ys[0])] + Zip(xs[1..], ys[1..])
  }

  /** The key's input commitment for the first `n` inputs:
      `gammaAbc[0] + inputs[0]·gammaAbc[1] + ... + inputs[n-1]·gammaAbc[n]`,
      summed from left to right. */
  function InputCombination(c: Curve, gammaAbc: seq<G1>, inputs: seq<Fr>, n: nat): G1
    requires n <= |inputs| && n < |gammaAbc|
  {
    if n == 0 then gammaAbc[0]
    else c.g1Add(InputCombination(c, gammaAbc, inputs, n - 1), c.g1Mul(gammaAbc[n], inputs[n - 1]))
  }

  /** With one point per input plus one, zipping the inputs with the points
      after the first (`skip(1)`) visits every input once and pairs input
      `i` with point `i + 1`, so no index falls outside either side. */
  lemma ZipSkipPairsInputWithNextPoint(inputs: seq<Fr>, gammaAbc: seq<G1>)
    requires |inputs| + 1 == |gammaAbc|
    ensures |Zip(inputs, gammaAbc[1..])| == |inputs|
    ensures forall i :: 0 <= i < |inputs| ==> Zip(inputs, gammaAbc[1..])[i] == (inputs[i], gammaAbc[i + 1])
  {
  }

  /** The key has one point per public input, plus one. */
  predicate InputsFitKey(vk: VerifyingKey, inputs: seq<Fr>) {
    |inputs| + 1 == |vk.gammaAbcG1|
  }

  /** What `aggregate_inputs` yields. */
  function Aggregate(c: Curve, prepVk: PreparedVK, inputs: seq<Fr>): Result<G1> {
    if InputsFitKey(prepVk.vk, inputs)
    then Success(InputCombination(c, prepVk.vk.gammaAbcG1, inputs, |inputs|))
    else Failure(MalformedKey)
  }

  /** Folds the public inputs into one G1 point. Aborts with `MalformedKey`,
      before any group operation, exactly when the key does not hold one point
      per input plus one; otherwise the zip with `skip(1)` pairs input `i`
      with point `i + 1` for every input, and the result is the closed-form
      sum. */
  method AggregateInputs(c: Curve, prepVk: PreparedVK, pubInputs: seq<Fr>) returns (r: Result<G1>)
    ensures r.Failure? <==> |pubInputs| + 1 != |prepVk.vk.gammaAbcG1|
    ensures r.Failure? ==> r.error == MalformedKey
    ensures r.Success? ==> r.value == InputCombination(c, prepVk.vk.gammaAbcG1, pubInputs, |pubInputs|)
    ensures pubInputs == [] && |prepVk.vk.gammaAbcG1| == 1 ==> r == Success(prepVk.vk.gammaAbcG1[0])
  {
    var gammaAbc := prepVk.vk.gammaAbcG1;
    if |pubInputs| + 1 != |gammaAbc| {
      return Failure(MalformedKey);
    }
    var gIc := gammaAbc[0];
    var pairs := Zip(pubInputs, gammaAbc[1..]);
    for k := 0 to |pairs|
      invariant gIc == InputCombination(c, gammaAbc, pubInputs, k)
    {
      var (i, b) := pairs[k];
      gIc := c.g1Add(gIc, c.g1Mul(b, i));
    }
    return Success(gIc);
  }

  /** Precomputes e(alpha, beta), -gamma and -delta, keeping the key itself. */
  function PrepareVk(c: Curve, vk: VerifyingKey): (r: PreparedVK)
    ensures r.vk == vk && r.PreparedOver(c)
  {
    PreparedVK(vk, c.pairing(vk.alphaG1, vk.betaG2), c.g2Neg(vk.gammaG2), c.g2Neg(vk.deltaG2))
  }

  /** A prepared key is determined by its key: `PrepareVk` is the only
      preparation that meets the documented meaning of the cached fields. */
  lemma PreparedKeyIsUnique(c: Curve, prepVk: PreparedVK)
    requires prepVk.PreparedOver(c)
    ensures prepVk == PrepareVk(c, prepVk.vk)
  {
  }

  /** The Groth16 equation in negated form: multiplies the three pairings in
      the order given and compares with the cached e(alpha, beta). */
  method VerifyEq(c: Curve, eAB: GT, eLNegGamma: GT, eCNegDelta: GT, eAlphaBeta: GT) returns (ok: bool)
    ensures ok <==> c.gtMul(c.gtMul(eAB, eLNegGamma), eCNegDelta) == eAlphaBeta
  {
    var lhs := eAB;
    lhs := c.gtMul(lhs, eLNegGamma);
    lhs := c.gtMul(lhs, eCNegDelta);
    ok := lhs == eAlphaBeta;
  }

  /** What `verify` yields: the malformed-key abort of the aggregation, or
      whether e(A, B)·e(L, -gamma)·e(C, -delta) equals e(alpha, beta), with L
      the aggregated inputs. */
  function Groth16Outcome(c: Curve, proof: Proof, prepVk: PreparedVK, inputs: seq<Fr>): Result<bool> {
    match Aggregate(c, prepVk, inputs)
    case Failure(e) => Failure(e)
    case Success(l) =>
      Success(c.gtMul(c.gtMul(c.pairing(proof.a, proof.b), c.pairing(l, prepVk.gammaNeg)),
                      c.pairing(proof.c, prepVk.deltaNeg)) == prepVk.eAlphaBeta)
  }

  /** Aggregates the inputs, computes the three pairings and evaluates the
      equation. */
  method Verify(c: Curve, proof: Proof, prepVk: PreparedVK, pubInputs: seq<Fr>) returns (r: Result<bool>)
    ensures r == Groth16Outcome(c, proof, prepVk, pubInputs)
  {
    var l := AggregateInputs(c, prepVk, pubInputs);
    if l.Failure? {
      return Failure(l.error);
    }
    var eAB := c.pairing(proof.a, proof.b);
    var eLNegGamma := c.pairing(l.value, prepVk.gammaNeg);
    var eCNegDelta := c.pairing(proof.c, prepVk.deltaNeg);
    var ok := VerifyEq(c, eAB, eLNegGamma, eCNegDelta, prepVk.eAlphaBeta);
    return Success(ok);
  }

  /** The pairing check on a prepared key aborts only for a malformed key,
      and otherwise accepts exactly when A is paired with B, the aggregated
      inputs with -gamma and C with -delta, and their product is e(alpha, beta). */
  lemma Groth16OutcomeOnPreparedKey(c: Curve, proof: Proof, vk: VerifyingKey, inputs: seq<Fr>)
    ensures Groth16Outcome(c, proof, PrepareVk(c, vk), inputs).Failure?
        <==> !InputsFitKey(vk, inputs)
    ensures Groth16Outcome(c, proof, PrepareVk(c, vk), inputs).Failure?
        ==> Groth16Outcome(c, proof, PrepareVk(c, vk), inputs).error == MalformedKey
    ensures InputsFitKey(vk, inputs) ==>
      Groth16Outcome(c, proof, PrepareVk(c, vk), inputs) ==
      Success(c.gtMul(c.gtMul(c.pairing(proof.a, proof.b),
                              c.pairing(InputCombination(c, vk.gammaAbcG1, inputs, |inputs|), c.g2Neg(vk.gammaG2))),
                      c.pairing(proof.c, c.g2Neg(vk.deltaG2)))
              == c.pairing(vk.alphaG1, vk.betaG2))
  {
  }

  /** Group algebra behind the negated check: when multiplying by `yNeg`
      then `y`, and by `zNeg` then `z`, changes nothing, comparing
      p·yNeg·zNeg with t is comparing p with t·y·z. */
  lemma MoveInversesAcross(c: Curve, p: GT, t: GT, y: GT, yNeg: GT, z: GT, zNeg: GT)
    requires GtRightCommutative(c)
    requires forall u :: c.gtMul(c.gtMul(u, yNeg), y) == u
    requires forall u :: c.gtMul(c.gtMul(u, zNeg), z) == u
    ensures c.gtMul(c.gtMul(p, yNeg), zNeg) == t <==> p == c.gtMul(c.gtMul(t, y), z)
  {
    if c.gtMul(c.gtMul(p, yNeg), zNeg) == t {
      calc {
        c.gtMul(c.gtMul(t, y), z);
        c.gtMul(c.gtMul(c.gtMul(c.gtMul(p, yNeg), zNeg), y), z);
        { assert RightCommutesAt(c, c.gtMul(p, yNeg), zNeg, y); }
        c.gtMul(c.gtMul(c.gtMul(c.gtMul(p, yNeg), y), zNeg), z);
        c.gtMul(c.gtMul(p, zNeg), z);
        p;
      }
    }
    if p == c.gtMul(c.gtMul(t, y), z) {
      calc {
        c.gtMul(c.gtMul(p, yNeg), zNeg);
        c.gtMul(c.gtMul(c.gtMul(c.gtMul(t, y), z), yNeg), zNeg);
        { assert RightCommutesAt(c, c.gtMul(t, y), z, yNeg); }
        c.gtMul(c.gtMul(c.gtMul(c.gtMul(t, y), yNeg), z), zNeg);
        { assert RightCommutesAt(c, t, y, yNeg); }
        c.gtMul(c.gtMul(c.gtMul(c.gtMul(t, yNeg), y), z), zNeg);
        c.gtMul(c.gtMul(t, z), zNeg);
        { assert RightCommutesAt(c, t, z, zNeg); }
        c.gtMul(c.gtMul(t, zNeg), z);
        t;
      }
    }
  }

  /** With the two group hypotheses, the negated check accepts exactly the
      proofs that satisfy the textbook Groth16 equation
      e(A, B) = e(alpha, beta)·e(L, gamma)·e(C, delta). */
  lemma NegatedCheckIsGroth16Equation(c: Curve, proof: Proof, prepVk: PreparedVK, inputs: seq<Fr>)
    requires GtRightCommutative(c) && NegationInvertsPairing(c)
    requires prepVk.PreparedOver(c) && InputsFitKey(prepVk.vk, inputs)
    ensures Groth16Outcome(c, proof, prepVk, inputs) ==
      Success(c.pairing(proof.a, proof.b) ==
              c.gtMul(c.gtMul(prepVk.eAlphaBeta,
                              c.pairing(InputCombination(c, prepVk.vk.gammaAbcG1, inputs, |inputs|), prepVk.vk.gammaG2)),
                      c.pairing(proof.c, prepVk.vk.deltaG2)))
  {
    var l := InputCombination(c, prepVk.vk.gammaAbcG1, inputs, |inputs|);
    forall u ensures c.gtMul(c.gtMul(u, c.pairing(l, prepVk.gammaNeg)), c.pairing(l, prepVk.vk.gammaG2)) == u {
      assert NegationCancelsAt(c, u, l, prepVk.vk.gammaG2);
    }
    forall u ensures c.gtMul(c.gtMul(u, c.pairing(proof.c, prepVk.deltaNeg)), c.pairing(proof.c, prepVk.vk.deltaG2)) == u {
      assert NegationCancelsAt(c, u, proof.c, prepVk.vk.deltaG2);
    }
    MoveInversesAcross(c, c.pairing(proof.a, proof.b), prepVk.eAlphaBeta,
      c.pairing(l, prepVk.vk.gammaG2), c.pairing(l, prepVk.gammaNeg),
      c.pairing(proof.c, prepVk.vk.deltaG2), c.pairing(proof.c, prepVk.deltaNeg));
  }
}
