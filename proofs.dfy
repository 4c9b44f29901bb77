/**
 * wasm/src/proofs.rs: `RawProof`, the snarkjs proof as deserialised from
 * JavaScript, and `PreparedProof`, the buffer builder.  Its setters take the
 * coordinates as unsigned integers, build the curve point, encode each 32-byte
 * limb big-endian (A with its y negated, the G2 limbs of B with the imaginary
 * coefficient first) and splice the bytes into the 256-byte `raw` buffer:
 * A in [0, 64), B in [64, 192), C in [192, 256).
 */
module Proofs {
  import opened Bytes
  import opened Endianness
  import opened Bn254

  /** The snarkjs proof record; coordinates are decimal strings. */
  datatype RawProof = RawProof(
    piA: seq<string>,
    piB: seq<seq<string>>,
    piC: seq<string>,
    protocol: string,
    curve: string)

  // ---------------------------------------------------------------------
  // The canonical byte layout, stated directly in big-endian terms.

  /** x then y, each 32 bytes big-endian. */
  function G1Be(p: G1Affine): (r: seq<byte>)
    ensures |r| == 64
  {
    BeBytes(p.x, 32) + BeBytes(p.y, 32)
  }

  /** x.c1, x.c0, y.c1, y.c0, each 32 bytes big-endian: the imaginary coefficient first. */
  function G2Be(p: G2Affine): (r: seq<byte>)
    ensures |r| == 128
  {
    BeBytes(p.x.c1, 32) + BeBytes(p.x.c0, 32) + BeBytes(p.y.c1, 32) + BeBytes(p.y.c0, 32)
  }

  /** The 256-byte proof the verifier consumes: -A, then B, then C. */
  function CanonicalProof(a: G1Affine, b: G2Affine, c: G1Affine): (r: seq<byte>)
    requires IsFq(a.y)
    ensures |r| == 256
  {
    G1Be(G1Neg(a)) + G2Be(b) + G1Be(c)
  }

  /** Splices into disjoint ranges commute, so the order of the setters does not matter. */
  lemma SplicesCommute(buf: seq<byte>, s1: nat, b1: seq<byte>, s2: nat, b2: seq<byte>)
    requires s1 + |b1| <= s2 && s2 + |b2| <= |buf|
    ensures Spliced(Spliced(buf, s1, b1), s2, b2) == Spliced(Spliced(buf, s2, b2), s1, b1)
  {
    var l, r := Spliced(Spliced(buf, s1, b1), s2, b2), Spliced(Spliced(buf, s2, b2), s1, b1);
    forall i | 0 <= i < |buf|
      ensures l[i] == r[i]
    {
      if s1 <= i < s1 + |b1| {
        assert l[i] == Spliced(buf, s1, b1)[i] == b1[i - s1];
        assert r[i] == b1[i - s1] by {
          assert r[s1..s1 + |b1|] == b1;
        }
      } else if s2 <= i < s2 + |b2| {
        assert l[i] == b2[i - s2] by {
          assert l[s2..s2 + |b2|] == b2;
        }
        assert r[i] == Spliced(buf, s2, b2)[i] == b2[i - s2];
      }
    }
  }

  /** Splicing A, C and B into any 256-byte buffer leaves exactly A || B || C. */
  lemma SettersTileBuffer(buf: seq<byte>, a: seq<byte>, b: seq<byte>, c: seq<byte>)
    requires |buf| == 256 && |a| == 64 && |b| == 128 && |c| == 64
    ensures Spliced(Spliced(Spliced(buf, 0, a), 192, c), 64, b) == a + b + c
  {
    var r := Spliced(Spliced(Spliced(buf, 0, a), 192, c), 64, b);
    var t := a + b + c;
    forall i | 0 <= i < 256
      ensures r[i] == t[i]
    {
      if i < 64 {
        assert r[i] == a[i] by {
          assert Spliced(buf, 0, a)[..64] == a;
        }
      } else if i < 192 {
        assert r[64..192] == b;
        assert r[i] == b[i - 64];
      } else {
        assert r[i] == c[i - 192] by {
          assert Spliced(Spliced(buf, 0, a), 192, c)[192..256] == c;
        }
      }
    }
  }

  // ---------------------------------------------------------------------
  // Reading the layout back: the partner of the setters.

  /** Reads the three points back out of a 256-byte buffer. */
  function DecodeProof(raw: seq<byte>): (r: (G1Affine, G2Affine, G1Affine))
    requires |raw| == 256
  {
    (G1Affine(BeValue(raw[0..32]), BeValue(raw[32..64])),
     G2Affine(Fq2(BeValue(raw[96..128]), BeValue(raw[64..96])),
              Fq2(BeValue(raw[160..192]), BeValue(raw[128..160]))),
     G1Affine(BeValue(raw[192..224]), BeValue(raw[224..256])))
  }

  lemma BeFieldRoundTrip(e: nat)
    requires IsFq(e)
    ensures BeValue(BeBytes(e, 32)) == e
  {
    BeValueOfBeBytes(e, 32);
    Pow256Of32();
    ModulusFits();
  }

  /**
   * The canonical buffer decodes to (-A, B, C), and negating the decoded A again
   * gives back A: the adapter loses nothing.
   */
  lemma CanonicalProofRoundTrip(a: G1Affine, b: G2Affine, c: G1Affine)
    requires IsFq(a.x) && IsFq(a.y) && IsFq2(b.x) && IsFq2(b.y) && IsFq(c.x) && IsFq(c.y)
    ensures DecodeProof(CanonicalProof(a, b, c)) == (G1Neg(a), b, c)
    ensures G1Neg(DecodeProof(CanonicalProof(a, b, c)).0) == a
  {
    var na := G1Neg(a);
    var l0, l1 := BeBytes(na.x, 32), BeBytes(na.y, 32);
    var l2, l3, l4, l5 := BeBytes(b.x.c1, 32), BeBytes(b.x.c0, 32), BeBytes(b.y.c1, 32), BeBytes(b.y.c0, 32);
    var l6, l7 := BeBytes(c.x, 32), BeBytes(c.y, 32);
    var raw := CanonicalProof(a, b, c);
    assert raw == (l0 + l1) + (l2 + l3 + l4 + l5) + (l6 + l7);
    EightLimbs(l0, l1, l2, l3, l4, l5, l6, l7);
    BeFieldRoundTrip(na.x);
    BeFieldRoundTrip(na.y);
    BeFieldRoundTrip(b.x.c0);
    BeFieldRoundTrip(b.x.c1);
    BeFieldRoundTrip(b.y.c0);
    BeFieldRoundTrip(b.y.c1);
    BeFieldRoundTrip(c.x);
    BeFieldRoundTrip(c.y);
    NegInvolution(a.y);
  }

  /** Where each of eight 32-byte limbs sits in their concatenation. */
  lemma EightLimbs(l0: seq<byte>, l1: seq<byte>, l2: seq<byte>, l3: seq<byte>,
                   l4: seq<byte>, l5: seq<byte>, l6: seq<byte>, l7: seq<byte>)
    requires |l0| == |l1| == |l2| == |l3| == |l4| == |l5| == |l6| == |l7| == 32
    ensures var s := (l0 + l1) + (l2 + l3 + l4 + l5) + (l6 + l7);
            && s[0..32] == l0 && s[32..64] == l1 && s[64..96] == l2 && s[96..128] == l3
            && s[128..160] == l4 && s[160..192] == l5 && s[192..224] == l6 && s[224..256] == l7
  {
    var s := (l0 + l1) + (l2 + l3 + l4 + l5) + (l6 + l7);
    assert s[0..32] == l0;
    assert s[32..64] == l1;
    assert s[64..96] == l2;
    assert s[96..128] == l3;
    assert s[128..160] == l4;
    assert s[160..192] == l5;
    assert s[192..224] == l6;
    assert s[224..256] == l7;
  }

  // ---------------------------------------------------------------------
  // Little-endian limbs to big-endian limbs.

  /** `into_bigint().to_bytes_le()`: a field element as 32 little-endian bytes. */
  function Limb(e: nat): (r: seq<byte>)
    ensures |r| == 32
  {
    LeBytes(e, 32)
  }

  /** Converting little-endian limbs 32 bytes at a time yields the big-endian limbs. */
  lemma LimbsToBe(x: nat, y: nat)
    ensures ConvertEndianness(Limb(x) + Limb(y), 32) == BeBytes(x, 32) + BeBytes(y, 32)
  {
    ConvertCons(Limb(x), Limb(y), 32);
    ConvertWholeIsReverse(Limb(y));
    BeIsReversedLe(x, 32);
    BeIsReversedLe(y, 32);
  }

  lemma FourLimbsToBe(a: nat, b: nat, c: nat, d: nat)
    ensures ConvertEndianness(Limb(a) + Limb(b) + Limb(c) + Limb(d), 32)
         == BeBytes(a, 32) + BeBytes(b, 32) + BeBytes(c, 32) + BeBytes(d, 32)
  {
    ConvertFourChunks(Limb(a), Limb(b), Limb(c), Limb(d));
    BeIsReversedLe(a, 32);
    BeIsReversedLe(b, 32);
    BeIsReversedLe(c, 32);
    BeIsReversedLe(d, 32);
  }

  /** The limb swap of `set_proof_b` turns (c0, c1) order into (c1, c0) order. */
  lemma SwapGivesImaginaryFirst(p: G2Affine)
    ensures var be := ConvertEndianness(Limb(p.x.c0) + Limb(p.x.c1) + Limb(p.y.c0) + Limb(p.y.c1), 32);
            |be| == 128 && SwapLimbPairs(be) == G2Be(p)
  {
    FourLimbsToBe(p.x.c0, p.x.c1, p.y.c0, p.y.c1);
    SwapOfFourLimbs(BeBytes(p.x.c0, 32), BeBytes(p.x.c1, 32), BeBytes(p.y.c0, 32), BeBytes(p.y.c1, 32));
  }

  // ---------------------------------------------------------------------
  // The buffer builder.

  class PreparedProof {
    var proofA: seq<byte>
    var proofB: seq<byte>
    var proofC: seq<byte>
    /** The `Vec<u8>` of 256 bytes the setters splice into. */
    const raw: array<byte>

    ghost predicate Valid()
      reads this
    {
      raw.Length == 256
    }

    /** `PreparedProof::new`: empty parts and 256 zero bytes. */
    constructor ()
      ensures Valid() && fresh(raw)
      ensures raw[..] == Zeros(256)
      ensures proofA == [] && proofB == [] && proofC == []
    {
      proofA, proofB, proofC := [], [], [];
      raw := new byte[256](_ => 0);
    }

    /** `set_proof_a`: negate the point, encode x || -y big-endian, write [0, 64). */
    method SetProofA(xInt: nat, yInt: nat)
      requires Valid()
      requires OnCurveG1(G1Affine(FromBigUint(xInt), FromBigUint(yInt)))
      modifies this, raw
      ensures Valid()
      ensures proofA == G1Be(G1Neg(G1Affine(FromBigUint(xInt), FromBigUint(yInt))))
      ensures proofB == old(proofB) && proofC == old(proofC)
      ensures raw[..] == Spliced(old(raw[..]), 0, proofA)
    {
      var g1 := G1Neg(G1Affine(FromBigUint(xInt), FromBigUint(yInt)));
      var g1Bytes := Limb(g1.x) + Limb(g1.y);
      LimbsToBe(g1.x, g1.y);
      proofA := ConvertEndianness(g1Bytes, 32);
      Overwrite(raw, 0, proofA);
    }

    /** `set_proof_b`: encode the four limbs big-endian, swap each pair, write [64, 192). */
    method SetProofB(x0Int: nat, y0Int: nat, x1Int: nat, y1Int: nat)
      requires Valid()
      requires OnCurveG2(G2Affine(Fq2(FromBigUint(x0Int), FromBigUint(y0Int)),
                                  Fq2(FromBigUint(x1Int), FromBigUint(y1Int))))
      modifies this, raw
      ensures Valid()
      ensures proofB == G2Be(G2Affine(Fq2(FromBigUint(x0Int), FromBigUint(y0Int)),
                                      Fq2(FromBigUint(x1Int), FromBigUint(y1Int))))
      ensures proofA == old(proofA) && proofC == old(proofC)
      ensures raw[..] == Spliced(old(raw[..]), 64, proofB)
    {
      var g2X := Fq2(FromBigUint(x0Int), FromBigUint(y0Int));
      var g2Y := Fq2(FromBigUint(x1Int), FromBigUint(y1Int));
      var g2 := G2Affine(g2X, g2Y);
      var g2Bytes := Limb(g2.x.c0) + Limb(g2.x.c1) + Limb(g2.y.c0) + Limb(g2.y.c1);
      var g2Be := ConvertEndianness(g2Bytes, 32);
      SwapGivesImaginaryFirst(g2);
      proofB := SwapLimbPairs(g2Be);
      Overwrite(raw, 64, proofB);
    }

    /** `set_proof_c`: like A but without negation, write [192, 256). */
    method SetProofC(xInt: nat, yInt: nat)
      requires Valid()
      requires OnCurveG1(G1Affine(FromBigUint(xInt), FromBigUint(yInt)))
      modifies this, raw
      ensures Valid()
      ensures proofC == G1Be(G1Affine(FromBigUint(xInt), FromBigUint(yInt)))
      ensures proofA == old(proofA) && proofB == old(proofB)
      ensures raw[..] == Spliced(old(raw[..]), 192, proofC)
    {
      var g1 := G1Affine(FromBigUint(xInt), FromBigUint(yInt));
      var g1Bytes := Limb(g1.x) + Limb(g1.y);
      LimbsToBe(g1.x, g1.y);
      proofC := ConvertEndianness(g1Bytes, 32);
      Overwrite(raw, 192, proofC);
    }
  }
}
