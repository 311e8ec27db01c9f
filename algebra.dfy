/** The curve backend the verifier is written against (BLS12-377 in the
    Rust crate), reduced to the operations the verifier calls.

    The points, the target group and the scalar field are opaque, and every
    operation is an arbitrary total function supplied as a field of `Curve`,
    so nothing proved about the verifier depends on how the curve computes.
    Two hypotheses that every pairing into an abelian group satisfies are
    stated as predicates; only the lemmas that relate the negated pairing
    check to the textbook Groth16 equation assume them. */
module Algebra {

  /** A point of the first source group. */
  type G1(==, !new)
  /** A point of the second source group. */
  type G2(==, !new)
  /** An element of the target group (arkworks' Fq12 for BLS12-377). */
  type GT(==, !new)
  /** A scalar: one public input. */
  type Fr(==, !new)

  /** The operations of the curve library the verifier uses. */
  datatype Curve = Curve(
    g1Add: (G1, G1) -> G1,    // `add_assign` on a G1 accumulator
    g1Mul: (G1, Fr) -> G1,    // scalar multiplication `b.mul(i.into_repr())`
    g2Neg: G2 -> G2,          // additive inverse in G2
    pairing: (G1, G2) -> GT,  // the bilinear pairing e
    gtMul: (GT, GT) -> GT)    // multiplication in the target group

  /** Multiplying `u` by `a` and then by `b` is multiplying it by `b` and
      then by `a`. */
  ghost predicate RightCommutesAt(c: Curve, u: GT, a: GT, b: GT) {
    c.gtMul(c.gtMul(u, a), b) == c.gtMul(c.gtMul(u, b), a)
  }

  /** The order of two multiplications never matters (true in every
      commutative, associative group). */
  ghost predicate GtRightCommutative(c: Curve) {
    forall u, a, b :: RightCommutesAt(c, u, a, b)
  }

  /** Multiplying `u` by e(p, -q) and then by e(p, q) gives `u` back. */
  ghost predicate NegationCancelsAt(c: Curve, u: GT, p: G1, q: G2) {
    c.gtMul(c.gtMul(u, c.pairing(p, c.g2Neg(q))), c.pairing(p, q)) == u
  }

  /** Pairing with a negated G2 point gives the inverse of pairing with the
      point (true of every bilinear pairing into a group). */
  ghost predicate NegationInvertsPairing(c: Curve) {
    forall u, p, q :: NegationCancelsAt(c, u, p, q)
  }
}
