/**
 * The BN254 (alt_bn128) base field and the two curve equations the proof
 * points must satisfy.  Field elements are naturals below the base modulus q;
 * the arithmetic is ordinary integer arithmetic reduced modulo q.
 */
module Bn254 {
  import opened Bytes

  /** The base-field modulus q of BN254. */
  const Q: nat := 21888242871839275222246405745257275088696311157297823662689037894645226208583

  lemma ModulusFits()
    ensures 0 < Q < TwoTo256
  {
  }

  /** An element of the base field F_q in canonical form. */
  predicate IsFq(e: nat)
  {
    e < Q
  }

  /**
   * `BigUint -> Fq` (`x_int.into()` in wasm/src/proofs.rs): any unsigned integer
   * is accepted and reduced modulo q.
   */
  function FromBigUint(n: nat): (e: nat)
    ensures IsFq(e) && (n - e) % Q == 0
  {
    n % Q
  }

  /** Additive inverse in F_q: y |-> (q - y) mod q. */
  function Neg(y: nat): (r: nat)
    requires IsFq(y)
    ensures IsFq(r) && (y + r) % Q == 0
  {
    (Q - y) % Q
  }

  /** Negation is an involution. */
  lemma NegInvolution(y: nat)
    requires IsFq(y)
    ensures Neg(Neg(y)) == y
  {
  }

  /** An affine G1 point (the point at infinity is not representable by `G1Affine::new`). */
  datatype G1Affine = G1Affine(x: nat, y: nat)

  /** The quadratic extension F_q2 = F_q[u]/(u^2 + 1): c0 + c1*u. */
  datatype Fq2 = Fq2(c0: nat, c1: nat)

  /** An affine G2 point, each coordinate in F_q2. */
  datatype G2Affine = G2Affine(x: Fq2, y: Fq2)

  predicate IsFq2(e: Fq2)
  {
    IsFq(e.c0) && IsFq(e.c1)
  }

  function Fq2Add(a: Fq2, b: Fq2): Fq2
  {
    Fq2((a.c0 + b.c0) % Q, (a.c1 + b.c1) % Q)
  }

  /** Product in F_q2, using u^2 = -1. */
  function Fq2Mul(a: Fq2, b: Fq2): Fq2
  {
    Fq2((a.c0 * b.c0 - a.c1 * b.c1) % Q, (a.c0 * b.c1 + a.c1 * b.c0) % Q)
  }

  /** xi = 9 + u, the non-residue that defines the sextic twist. */
  const Xi: Fq2 := Fq2(9, 1)

  /** `G1Affine::new` accepts exactly the points of y^2 = x^3 + 3 (G1 has cofactor 1). */
  predicate OnCurveG1(p: G1Affine)
  {
    IsFq(p.x) && IsFq(p.y) && (p.y * p.y) % Q == (p.x * p.x * p.x + 3) % Q
  }

  /**
   * The twist curve y^2 = x^3 + 3/xi, written multiplied through by xi so that no
   * inverse is needed: y^2 * xi = x^3 * xi + 3.
   */
  predicate OnCurveG2(p: G2Affine)
  {
    && IsFq2(p.x) && IsFq2(p.y)
    && Fq2Mul(Fq2Mul(p.y, p.y), Xi) == Fq2Add(Fq2Mul(Fq2Mul(Fq2Mul(p.x, p.x), p.x), Xi), Fq2(3, 0))
  }

  /** Point negation `(x, y) |-> (x, -y)` of `G1Affine::neg`. */
  function G1Neg(p: G1Affine): (r: G1Affine)
    requires IsFq(p.y)
    ensures r.x == p.x && IsFq(r.y) && (p.y + r.y) % Q == 0
  {
    G1Affine(p.x, Neg(p.y))
  }

  lemma ModOfMultipleAdded(m: int, k: int)
    ensures (Q * k + m) % Q == m % Q
  {
    DivModUnique(Q * k + m, Q, k + m / Q, m % Q);
  }

  /** The negated point of an on-curve point is on the curve. */
  lemma NegOnCurve(p: G1Affine)
    requires OnCurveG1(p)
    ensures OnCurveG1(G1Neg(p))
  {
    var y, n := p.y, Neg(p.y);
    if y != 0 {
      assert n == Q - y;
      assert n * n == Q * (Q - 2 * y) + y * y;
      ModOfMultipleAdded(y * y, Q - 2 * y);
    }
  }
}
