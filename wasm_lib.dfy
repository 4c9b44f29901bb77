/**
 * wasm/src/lib.rs: the two entry points JavaScript calls.  `prepare_g1_point`
 * parses two decimal coordinates, range-checks them against the base field and
 * returns the uncompressed little-endian encoding of the point;
 * `prepare_proofs` parses the eight coordinates of a snarkjs proof and runs
 * the three setters of `PreparedProof` on a fresh buffer.
 */
module WasmLib {
  import opened Wrappers
  import opened Bytes
  import opened Text
  import opened Endianness
  import opened Bn254
  import opened Proofs

  /** The error side of the entry points: `JsValue::null()` or `JsValue::from_str(text)`. */
  datatype JsError = Null | Message(text: string)

  /**
   * `BigInt::<4>::from_str`: the decimal grammar of `BigUint::from_str`, then a
   * failure if the value does not fit in four 64-bit limbs.
   */
  function ParseBigInt256(s: string): (r: Option<nat>)
    ensures r.Some? <==> ParseBigUint(s).Some? && ParseBigUint(s).value < TwoTo256
    ensures r.Some? ==> r.value == ParseBigUint(s).value
  {
    match ParseBigUint(s)
    case None => None
    case Some(n) => if n < TwoTo256 then Some(n) else None
  }

  /** Both coordinates read, in range for the field: the case `prepare_g1_point` encodes. */
  predicate G1Parses(xStr: string, yStr: string)
  {
    && ParseBigUint(xStr).Some? && ParseBigUint(xStr).value < Q
    && ParseBigUint(yStr).Some? && ParseBigUint(yStr).value < Q
  }

  /**
   * `G1Affine::new` asserts that the point is on the curve, so a caller must not
   * pass in-range coordinates of a point off the curve.
   */
  predicate G1NoPanic(xStr: string, yStr: string)
  {
    G1Parses(xStr, yStr) ==> OnCurveG1(G1Affine(ParseBigUint(xStr).value, ParseBigUint(yStr).value))
  }

  /**
   * ark's `SWFlags` for a point that is not at infinity: y counts as negative
   * when it is larger than its own negation.
   */
  predicate YIsNegative(y: nat)
    requires IsFq(y)
  {
    y > Neg(y)
  }

  /**
   * Bit 255 of y's 32-byte limb, that is bit 7 of its last byte, where
   * `serialize_uncompressed` stores the sign flag; q < 2^254 leaves it free.
   */
  const YSignBit: nat := TwoTo256 / 2

  /** The number whose 32 little-endian bytes `serialize_uncompressed` writes for y. */
  function FlaggedY(y: nat): nat
    requires IsFq(y)
  {
    if YIsNegative(y) then y + YSignBit else y
  }

  /** The flag sits above every field element, so y and the flag can both be read back. */
  lemma FlaggedYBits(y: nat)
    requires IsFq(y)
    ensures FlaggedY(y) < TwoTo256
    ensures FlaggedY(y) % YSignBit == y
    ensures FlaggedY(y) >= YSignBit <==> YIsNegative(y)
  {
    assert Q < YSignBit;
    if YIsNegative(y) {
      DivModUnique(FlaggedY(y), YSignBit, 1, y);
    } else {
      DivModUnique(FlaggedY(y), YSignBit, 0, y);
    }
  }

  /** The limb of a flagged y reads back as y below the flag bit and the flag above it. */
  lemma FlaggedYLimb(y: nat)
    requires IsFq(y)
    ensures LeValue(LeBytes(FlaggedY(y), 32)) % YSignBit == y
    ensures LeValue(LeBytes(FlaggedY(y), 32)) >= YSignBit <==> YIsNegative(y)
  {
    FlaggedYBits(y);
    Pow256Of32();
    LeRoundTrip(FlaggedY(y), 32);
  }

  /**
   * `serialize_uncompressed` of a point off infinity: x, then y with its sign
   * flag, 32 little-endian bytes each.
   */
  function SerializeUncompressed(p: G1Affine): (r: seq<byte>)
    requires IsFq(p.x) && IsFq(p.y)
    ensures |r| == 64
    ensures LeValue(r[..32]) == p.x
    ensures LeValue(r[32..]) % YSignBit == p.y
    ensures LeValue(r[32..]) >= YSignBit <==> YIsNegative(p.y)
  {
    var bytes := LeBytes(p.x, 32) + LeBytes(FlaggedY(p.y), 32);
    assert bytes[..32] == LeBytes(p.x, 32) && bytes[32..] == LeBytes(FlaggedY(p.y), 32);
    ModulusFits();
    Pow256Of32();
    LeRoundTrip(p.x, 32);
    FlaggedYLimb(p.y);
    bytes
  }

  /**
   * `prepare_g1_point`: x is parsed first, then y; a parse failure names the
   * coordinate, a value >= q gives the shared range error, and a good point is
   * serialised uncompressed as x then y, 32 little-endian bytes each, with the
   * sign flag of y in the top bit.
   */
  function PrepareG1Point(xStr: string, yStr: string): (r: Result<seq<byte>, JsError>)
    requires G1NoPanic(xStr, yStr)
    ensures r.Success? <==> G1Parses(xStr, yStr)
    ensures ParseBigInt256(xStr).None? ==> r == Failure(Message("Failed to parse x coordinate"))
    ensures ParseBigInt256(xStr).Some? && ParseBigInt256(yStr).None?
            ==> r == Failure(Message("Failed to parse y coordinate"))
    ensures ParseBigInt256(xStr).Some? && ParseBigInt256(yStr).Some? && !G1Parses(xStr, yStr)
            ==> r == Failure(Message("Failed to parse x or y coordinate"))
    ensures r.Success? ==> (&& |r.value| == 64
                            && LeValue(r.value[..32]) == ParseBigUint(xStr).value
                            && LeValue(r.value[32..]) % YSignBit == ParseBigUint(yStr).value
                            && (LeValue(r.value[32..]) >= YSignBit <==> YIsNegative(ParseBigUint(yStr).value)))
  {
    match ParseBigInt256(xStr)
    case None => Failure(Message("Failed to parse x coordinate"))
    case Some(x) =>
      match ParseBigInt256(yStr)
      case None => Failure(Message("Failed to parse y coordinate"))
      case Some(y) =>
        if x < Q && y < Q then
          Success(SerializeUncompressed(G1Affine(x, y)))
        else
          Failure(Message("Failed to parse x or y coordinate"))
  }

  lemma {:induction false} MulMonotone(p: nat, a: nat, b: nat)
    requires a <= b
    ensures p * a <= p * b
    decreases b - a
  {
    if a < b {
      MulMonotone(p, a, b - 1);
      assert p * b == p * (b - 1) + p;
    }
  }

  /** The digit of v in place p, for v below 256 places, is at least 128 exactly when v is. */
  lemma TopDigitHalf(v: nat, p: nat)
    requires p > 0 && v < 256 * p
    ensures v / p % 256 >= 128 <==> v >= 128 * p
  {
    var d, m := v / p, v % p;
    assert v == p * d + m && 0 <= m < p;
    if d >= 256 {
      MulMonotone(p, 256, d);
      assert false;
    }
    DivModUnique(d, 256, 0, d);
    if d >= 128 {
      MulMonotone(p, 128, d);
    } else {
      MulMonotone(p, d, 127);
    }
  }

  /** The top bit of a 32-byte little-endian number is bit 7 of its last byte. */
  lemma TopBitInLastByte(b: seq<byte>)
    requires |b| == 32
    ensures b[31] >= 128 <==> LeValue(b) >= YSignBit
  {
    var v := LeValue(b);
    Pow256Of32();
    assert Pow256(32) == 256 * Pow256(31);
    LeValueBound(b);
    LeBytesOfLeValue(b);
    LeBytesAt(v, 32, 31);
    TopDigitHalf(v, Pow256(31));
  }

  /** On the wire the flag is bit 7 of byte 63: set exactly when y is negative. */
  lemma PrepareG1PointSignByte(xStr: string, yStr: string)
    requires G1NoPanic(xStr, yStr) && G1Parses(xStr, yStr)
    ensures PrepareG1Point(xStr, yStr).value[63] >= 128 <==> YIsNegative(ParseBigUint(yStr).value)
  {
    var r := PrepareG1Point(xStr, yStr).value;
    TopBitInLastByte(r[32..]);
  }

  /** Printing the coordinates of a point in decimal and handing them back encodes that point. */
  lemma PrepareG1PointOfDecimals(p: G1Affine)
    requires OnCurveG1(p)
    ensures G1NoPanic(NatToDecimal(p.x), NatToDecimal(p.y))
            && var r := PrepareG1Point(NatToDecimal(p.x), NatToDecimal(p.y));
            && r.Success?
            && LeValue(r.value[..32]) == p.x
            && LeValue(r.value[32..]) % YSignBit == p.y
  {
    ParseDecimalRoundTrip(p.x);
    ParseDecimalRoundTrip(p.y);
    assert G1Parses(NatToDecimal(p.x), NatToDecimal(p.y));
  }

  /** Two numbers that fit in len bytes and encode alike are equal. */
  lemma BeBytesInjective(a: nat, b: nat, len: nat)
    requires a < Pow256(len) && b < Pow256(len) && BeBytes(a, len) == BeBytes(b, len)
    ensures a == b
  {
    BeValueOfBeBytes(a, len);
    BeValueOfBeBytes(b, len);
  }

  /**
   * The bytes of `prepare_g1_point` are the little-endian limbs `set_proof_c`
   * starts from exactly when the sign flag is clear: only then does converting
   * them 32 bytes at a time give the big-endian C layout.
   */
  lemma PrepareG1PointIsLeProofC(xStr: string, yStr: string)
    requires G1NoPanic(xStr, yStr) && G1Parses(xStr, yStr)
    ensures var p := G1Affine(ParseBigUint(xStr).value, ParseBigUint(yStr).value);
            ConvertEndianness(PrepareG1Point(xStr, yStr).value, 32) == G1Be(p) <==> !YIsNegative(p.y)
  {
    var r := PrepareG1Point(xStr, yStr).value;
    var x, y := ParseBigUint(xStr).value, ParseBigUint(yStr).value;
    var v := LeValue(r[32..]);
    assert r[..32] + r[32..] == r;
    LeBytesOfLeValue(r[..32]);
    LeBytesOfLeValue(r[32..]);
    LimbsToBe(x, v);
    var be := ConvertEndianness(r, 32);
    assert be == BeBytes(x, 32) + BeBytes(v, 32);
    if YIsNegative(y) {
      if be == G1Be(G1Affine(x, y)) {
        assert be[32..] == BeBytes(v, 32) == BeBytes(y, 32);
        LeValueBound(r[32..]);
        ModulusFits();
        Pow256Of32();
        BeBytesInjective(v, y, 32);
        assert false;
      }
    } else {
      DivModUnique(v, YSignBit, 0, v);
    }
  }

  /** (1, q - 2) is on the curve: 1 + 3 = 2^2 and (q - 2)^2 = 4 mod q. */
  lemma OneMinusTwoOnCurve()
    ensures OnCurveG1(G1Affine(1, Q - 2))
  {
    assert (Q - 2) * (Q - 2) == Q * (Q - 4) + 4;
    ModOfMultipleAdded(4, Q - 4);
  }

  /** The last of len little-endian bytes is the digit of n in place 256^(len - 1). */
  lemma LastLeByte(n: nat, len: nat, digit: nat, rest: nat)
    requires len >= 1 && digit < 256 && rest < Pow256(len - 1) && n == Pow256(len - 1) * digit + rest
    ensures LeBytes(n, len)[len - 1] == digit
  {
    LeBytesAt(n, len, len - 1);
    DivModUnique(n, Pow256(len - 1), digit, rest);
  }

  /** The last little-endian byte of q - 2 is 0x30, of q - 2 with the flag 0xb0. */
  lemma LastByteOfQMinusTwo()
    ensures LeBytes(Q - 2, 32)[31] == 0x30
    ensures LeBytes(Q - 2 + YSignBit, 32)[31] == 0xb0
  {
    Pow256Of32();
    var p := Pow256(31);
    assert 256 * p == TwoTo256;
    var rest := Q - 2 - p * 0x30;
    LastLeByte(Q - 2, 32, 0x30, rest);
    LastLeByte(Q - 2 + YSignBit, 32, 0xb0, rest);
  }

  /** A number between s and 2s is s plus its remainder mod s. */
  lemma OneAbove(v: nat, s: nat)
    requires 0 < s <= v < 2 * s
    ensures v == s + v % s
  {
    var d := v / s;
    assert v == s * d + v % s;
    if d >= 2 {
      MulMonotone(s, 2, d);
    }
  }

  /** A 32-byte limb with the flag set holds y plus the flag bit. */
  lemma FlaggedLimb(b: seq<byte>, y: nat)
    requires |b| == 32 && LeValue(b) >= YSignBit && LeValue(b) % YSignBit == y
    ensures LeValue(b) == y + YSignBit
  {
    Pow256Of32();
    LeValueBound(b);
    OneAbove(LeValue(b), YSignBit);
  }

  /** For a negative y, byte 63 is the last byte of y's limb with the flag added. */
  lemma NegativeYLastByte(xStr: string, yStr: string)
    requires G1NoPanic(xStr, yStr) && G1Parses(xStr, yStr) && YIsNegative(ParseBigUint(yStr).value)
    ensures PrepareG1Point(xStr, yStr).value[63] == LeBytes(ParseBigUint(yStr).value + YSignBit, 32)[31]
  {
    var r := PrepareG1Point(xStr, yStr).value;
    FlaggedLimb(r[32..], ParseBigUint(yStr).value);
    LeBytesOfLeValue(r[32..]);
    assert r[63] == r[32..][31];
  }

  /**
   * (1, q - 2) has a negative y, so text that reads as those coordinates (their
   * decimal form, say) encodes with the flag: byte 63 is 0xb0, not the 0x30 of
   * the plain limb of q - 2.
   */
  lemma FlaggedPointExample(xStr: string, yStr: string)
    requires ParseBigUint(xStr) == Some(1) && ParseBigUint(yStr) == Some(Q - 2)
    ensures OnCurveG1(G1Affine(1, Q - 2)) && YIsNegative(Q - 2)
    ensures G1NoPanic(xStr, yStr)
            && PrepareG1Point(xStr, yStr).Success?
            && PrepareG1Point(xStr, yStr).value[63] == 0xb0
            && LeBytes(Q - 2, 32)[31] == 0x30
  {
    OneMinusTwoOnCurve();
    assert Neg(Q - 2) == 2;
    assert G1Parses(xStr, yStr);
    NegativeYLastByte(xStr, yStr);
    LastByteOfQMinusTwo();
  }

  // ---------------------------------------------------------------------
  // prepare_proofs

  /**
   * The proof has the coordinate slots `prepare_proofs` indexes; a shorter list
   * makes the indexing panic.
   */
  predicate HasCoordinateSlots(p: RawProof)
  {
    |p.piA| >= 2 && |p.piC| >= 2 && |p.piB| >= 2 && |p.piB[0]| >= 2 && |p.piB[1]| >= 2
  }

  predicate AParses(p: RawProof)
    requires HasCoordinateSlots(p)
  {
    ParseBigUint(p.piA[0]).Some? && ParseBigUint(p.piA[1]).Some?
  }

  predicate CParses(p: RawProof)
    requires HasCoordinateSlots(p)
  {
    ParseBigUint(p.piC[0]).Some? && ParseBigUint(p.piC[1]).Some?
  }

  predicate BParses(p: RawProof)
    requires HasCoordinateSlots(p)
  {
    && ParseBigUint(p.piB[0][0]).Some? && ParseBigUint(p.piB[0][1]).Some?
    && ParseBigUint(p.piB[1][0]).Some? && ParseBigUint(p.piB[1][1]).Some?
  }

  /** The point `set_proof_a` builds: both coordinates reduced into the field. */
  function PointA(p: RawProof): (a: G1Affine)
    requires HasCoordinateSlots(p) && AParses(p)
    ensures IsFq(a.x) && IsFq(a.y)
  {
    G1Affine(FromBigUint(ParseBigUint(p.piA[0]).value), FromBigUint(ParseBigUint(p.piA[1]).value))
  }

  function PointC(p: RawProof): (c: G1Affine)
    requires HasCoordinateSlots(p) && CParses(p)
    ensures IsFq(c.x) && IsFq(c.y)
  {
    G1Affine(FromBigUint(ParseBigUint(p.piC[0]).value), FromBigUint(ParseBigUint(p.piC[1]).value))
  }

  /** `Fq2::new(x0, y0)` and `Fq2::new(x1, y1)`: pi_b[i] holds the (c0, c1) pair of coordinate i. */
  function PointB(p: RawProof): (b: G2Affine)
    requires HasCoordinateSlots(p) && BParses(p)
    ensures IsFq2(b.x) && IsFq2(b.y)
  {
    G2Affine(Fq2(FromBigUint(ParseBigUint(p.piB[0][0]).value), FromBigUint(ParseBigUint(p.piB[0][1]).value)),
             Fq2(FromBigUint(ParseBigUint(p.piB[1][0]).value), FromBigUint(ParseBigUint(p.piB[1][1]).value)))
  }

  /**
   * The setters run in the order A, C, B, each as soon as its coordinates parse,
   * and `G1Affine::new`/`G2Affine::new` panic off the curve: a caller must not
   * reach a setter with a point off the curve.
   */
  predicate SettersNoPanic(p: RawProof)
    requires HasCoordinateSlots(p)
  {
    && (AParses(p) ==> OnCurveG1(PointA(p)))
    && (AParses(p) && CParses(p) ==> OnCurveG1(PointC(p)))
    && (AParses(p) && CParses(p) && BParses(p) ==> OnCurveG2(PointB(p)))
  }

  /**
   * The 256 bytes `prepare_proofs` returns in `raw`, or None when one of the
   * eight coordinate strings does not parse.
   */
  function PreparedRaw(p: RawProof): (r: Option<seq<byte>>)
    requires HasCoordinateSlots(p)
    ensures r.Some? <==> AParses(p) && CParses(p) && BParses(p)
    ensures r.Some? ==> (&& |r.value| == 256
                         && DecodeProof(r.value) == (G1Neg(PointA(p)), PointB(p), PointC(p))
                         && G1Neg(DecodeProof(r.value).0) == PointA(p))
  {
    if AParses(p) && CParses(p) && BParses(p) then
      CanonicalProofRoundTrip(PointA(p), PointB(p), PointC(p));
      Some(CanonicalProof(PointA(p), PointB(p), PointC(p)))
    else
      None
  }

  /**
   * Only pi_a[0..2], pi_c[0..2], pi_b[0][0..2] and pi_b[1][0..2] are read: the
   * projective z coordinates, `protocol` and `curve` make no difference.
   */
  lemma OnlyEightCoordinatesRead(p: RawProof, p': RawProof)
    requires HasCoordinateSlots(p) && HasCoordinateSlots(p')
    requires p.piA[..2] == p'.piA[..2] && p.piC[..2] == p'.piC[..2]
    requires p.piB[0][..2] == p'.piB[0][..2] && p.piB[1][..2] == p'.piB[1][..2]
    ensures PreparedRaw(p) == PreparedRaw(p')
  {
    assert p.piA[0] == p.piA[..2][0] && p.piA[1] == p.piA[..2][1];
    assert p'.piA[0] == p'.piA[..2][0] && p'.piA[1] == p'.piA[..2][1];
    assert p.piC[0] == p.piC[..2][0] && p.piC[1] == p.piC[..2][1];
    assert p'.piC[0] == p'.piC[..2][0] && p'.piC[1] == p'.piC[..2][1];
    assert p.piB[0][0] == p.piB[0][..2][0] && p.piB[0][1] == p.piB[0][..2][1];
    assert p'.piB[0][0] == p'.piB[0][..2][0] && p'.piB[0][1] == p'.piB[0][..2][1];
    assert p.piB[1][0] == p.piB[1][..2][0] && p.piB[1][1] == p.piB[1][..2][1];
    assert p'.piB[1][0] == p'.piB[1][..2][0] && p'.piB[1][1] == p'.piB[1][..2][1];
  }

  /**
   * `prepare_proofs`: a fresh `PreparedProof`, then parse A and set it, parse C
   * and set it, parse B and set it; any parse failure returns `JsValue::null()`.
   */
  method PrepareProofs(rawProof: RawProof) returns (r: Result<PreparedProof, JsError>)
    requires HasCoordinateSlots(rawProof) && SettersNoPanic(rawProof)
    ensures r.Failure? <==> PreparedRaw(rawProof).None?
    ensures r.Failure? ==> r.error == Null
    ensures r.Success? ==> && fresh(r.value) && fresh(r.value.raw) && r.value.Valid()
                           && r.value.raw[..] == PreparedRaw(rawProof).value
                           && r.value.proofA == G1Be(G1Neg(PointA(rawProof)))
                           && r.value.proofB == G2Be(PointB(rawProof))
                           && r.value.proofC == G1Be(PointC(rawProof))
  {
    var prepared := new PreparedProof();

    var ax := ParseBigUint(rawProof.piA[0]);
    if ax.None? { return Failure(Null); }
    var ay := ParseBigUint(rawProof.piA[1]);
    if ay.None? { return Failure(Null); }
    prepared.SetProofA(ax.value, ay.value);

    var cx := ParseBigUint(rawProof.piC[0]);
    if cx.None? { return Failure(Null); }
    var cy := ParseBigUint(rawProof.piC[1]);
    if cy.None? { return Failure(Null); }
    prepared.SetProofC(cx.value, cy.value);

    var bx0 := ParseBigUint(rawProof.piB[0][0]);
    if bx0.None? { return Failure(Null); }
    var by0 := ParseBigUint(rawProof.piB[0][1]);
    if by0.None? { return Failure(Null); }
    var bx1 := ParseBigUint(rawProof.piB[1][0]);
    if bx1.None? { return Failure(Null); }
    var by1 := ParseBigUint(rawProof.piB[1][1]);
    if by1.None? { return Failure(Null); }
    prepared.SetProofB(bx0.value, by0.value, bx1.value, by1.value);

    SettersTileBuffer(Zeros(256), prepared.proofA, prepared.proofB, prepared.proofC);
    return Success(prepared);
  }
}
