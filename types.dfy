/** The Groth16 data: proof, verifying key and prepared verifying key.

    All three are values; the derived `Clone` of `types.rs` produces an
    equal value, which for a Dafny datatype is the value itself. The derived
    canonical serialization writes the fields in declaration order; this
    module states that order as a sequence of `Element`s (points, and the
    length that precedes a vector), without modelling the bytes of each
    element. Like `deserialize_uncompressed`, the readers consume the layout
    from the front of their input and ignore whatever follows it. */
module Types {
  import opened Algebra
  import opened Outcome

  /** A Groth16 proof: `a` and `c` in G1, `b` in G2. */
  datatype Proof = Proof(a: G1, b: G2, c: G1)

  /** A Groth16 verifying key. `gammaAbcG1` holds one point per public input,
      plus one for the constant term. */
  datatype VerifyingKey = VerifyingKey(
    alphaG1: G1,
    betaG2: G2,
    gammaG2: G2,
    deltaG2: G2,
    gammaAbcG1: seq<G1>)

  /** A verifying key with the values the pairing check reuses. */
  datatype PreparedVK = PreparedVK(vk: VerifyingKey, eAlphaBeta: GT, gammaNeg: G2, deltaNeg: G2)
  {
    /** The documented meaning of the cached fields: e(alpha, beta), -gamma
        and -delta of the key it carries. */
    ghost predicate PreparedOver(c: Curve) {
      && eAlphaBeta == c.pairing(vk.alphaG1, vk.betaG2)
      && gammaNeg == c.g2Neg(vk.gammaG2)
      && deltaNeg == c.g2Neg(vk.deltaG2)
    }
  }

  /** One item of a serialized structure, in the order it is written. */
  datatype Element = G1Point(p: G1) | G2Point(q: G2) | Length(n: nat)

  /** The serialized layout of a proof: `a`, `b`, `c`. */
  function ProofElements(proof: Proof): seq<Element> {
    [G1Point(proof.a), G2Point(proof.b), G1Point(proof.c)]
  }

  /** Reads a proof from the front of `es`; anything after its three
      elements is left unread. */
  function ProofFromElements(es: seq<Element>): Option<Proof> {
    if |es| >= 3 && es[0].G1Point? && es[1].G2Point? && es[2].G1Point?
    then Some(Proof(es[0].p, es[1].q, es[2].p))
    else None
  }

  /** A proof is read from exactly the inputs that start with its own
      layout, whatever follows. */
  lemma ProofLayout(proof: Proof, es: seq<Element>)
    ensures ProofFromElements(es) == Some(proof)
        <==> |es| >= 3 && es[..3] == ProofElements(proof)
  {
  }

  /** The layout of a vector of G1 points, after its length. */
  function G1Elements(ps: seq<G1>): (es: seq<Element>)
    ensures |es| == |ps|
    ensures forall k :: 0 <= k < |ps| ==> es[k] == G1Point(ps[k])
  {
    if ps == [] then [] else [G1Point(ps[0])] + G1Elements(ps[1..])
  }

  /** Reads `n` G1 points from the front of `es`; fails if there are fewer
      than `n` elements or one of them is not a G1 point. */
  function G1sFromElements(es: seq<Element>, n: nat): Option<seq<G1>>
    decreases n
  {
    if n == 0 then Some([])
    else if es == [] || !es[0].G1Point? then None
    else match G1sFromElements(es[1..], n - 1)
      case None => None
      case Some(ps) => Some([es[0].p] + ps)
  }

  lemma {:induction false} G1sRoundTrip(ps: seq<G1>, rest: seq<Element>)
    ensures G1sFromElements(G1Elements(ps) + rest, |ps|) == Some(ps)
    decreases |ps|
  {
    if ps != [] {
      G1sRoundTrip(ps[1..], rest);
      assert (G1Elements(ps) + rest)[1..] == G1Elements(ps[1..]) + rest;
      assert [ps[0]] + ps[1..] == ps;
    }
  }

  lemma {:induction false} G1sCanonical(es: seq<Element>, n: nat, ps: seq<G1>)
    requires G1sFromElements(es, n) == Some(ps)
    ensures |ps| == n <= |es| && es[..n] == G1Elements(ps)
    decreases n
  {
    if n != 0 {
      var rest := G1sFromElements(es[1..], n - 1).value;
      G1sCanonical(es[1..], n - 1, rest);
      assert ps == [es[0].p] + rest;
      assert ps[1..] == rest;
      assert G1Elements(ps) == [G1Point(ps[0])] + G1Elements(rest);
      assert es[..n] == [es[0]] + es[1..][..n - 1];
    }
  }

  /** The serialized layout of a verifying key: `alpha_g1`, `beta_g2`,
      `gamma_g2`, `delta_g2`, then the length of `gamma_abc_g1` and its
      points in order. */
  function KeyElements(vk: VerifyingKey): seq<Element> {
    [G1Point(vk.alphaG1), G2Point(vk.betaG2), G2Point(vk.gammaG2), G2Point(vk.deltaG2),
     Length(|vk.gammaAbcG1|)] + G1Elements(vk.gammaAbcG1)
  }

  /** Reads a verifying key from the front of `es`; anything after the
      points its length announces is left unread. */
  function KeyFromElements(es: seq<Element>): Option<VerifyingKey> {
    if && |es| >= 5
       && es[0].G1Point? && es[1].G2Point? && es[2].G2Point? && es[3].G2Point?
       && es[4].Length?
    then match G1sFromElements(es[5..], es[4].n)
      case None => None
      case Some(ps) => Some(VerifyingKey(es[0].p, es[1].q, es[2].q, es[3].q, ps))
    else None
  }

  /** A verifying key is read from exactly the inputs that start with its
      own layout, whatever follows. */
  lemma KeyLayout(vk: VerifyingKey, es: seq<Element>)
    ensures KeyFromElements(es) == Some(vk)
        <==> |es| >= |KeyElements(vk)| && es[..|KeyElements(vk)|] == KeyElements(vk)
  {
    var layout := KeyElements(vk);
    if |es| >= |layout| && es[..|layout|] == layout {
      var rest := es[|layout|..];
      assert es == layout + rest;
      assert es[5..] == G1Elements(vk.gammaAbcG1) + rest;
      G1sRoundTrip(vk.gammaAbcG1, rest);
    }
    if KeyFromElements(es) == Some(vk) {
      G1sCanonical(es[5..], es[4].n, vk.gammaAbcG1);
      assert es[..|layout|] == es[..5] + es[5..][..|vk.gammaAbcG1|];
    }
  }
}
