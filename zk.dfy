/**
 * utils/zk.ts: `proofToUint8Array`, the TypeScript proof layout (every limb
 * little-endian, no negation of A), and `to32ByteBuffer`, the big-endian
 * 32-byte encoder that goes through `toString(16)`, `padStart(64, "0")` and
 * Node's hexadecimal `Buffer.from`.
 */
module Zk {
  import opened Bytes
  import opened Text
  import opened Endianness
  import opened Bn254
  import opened Proofs
  import opened Helpers

  // ---------------------------------------------------------------------
  // proofToUint8Array

  /** 64 bytes: x then y, 32 little-endian bytes each. */
  function LeG1(x: int, y: int): (r: seq<byte>)
    ensures |r| == 64
  {
    LeBytes(x, 32) + LeBytes(y, 32)
  }

  /** 128 bytes in the order pi_b[0][0], pi_b[1][0], pi_b[0][1], pi_b[1][1]. */
  function LeG2(x0: int, y0: int, x1: int, y1: int): (r: seq<byte>)
    ensures |r| == 128
  {
    LeBytes(x0, 32) + LeBytes(x1, 32) + LeBytes(y0, 32) + LeBytes(y1, 32)
  }

  /** Writing consecutive parts from the front of a buffer leaves them concatenated there. */
  lemma SpliceExtends(buf: seq<byte>, done: seq<byte>, part: seq<byte>)
    requires |done| + |part| <= |buf| && buf[..|done|] == done
    ensures Spliced(buf, |done|, part)[..|done| + |part|] == done + part
  {
  }

  /** Two coordinates into a fresh 64-byte array with `.set` at offsets 0 and 32. */
  method G1ToUint8Array(x: int, y: int) returns (proof: array<byte>)
    ensures fresh(proof)
    ensures proof[..] == LeG1(x, y)
  {
    var bX := BigIntToLeUint8Array(x);
    var bY := BigIntToLeUint8Array(y);
    proof := new byte[64](_ => 0);
    ghost var p0 := proof[..];
    Overwrite(proof, 0, bX[..]);
    ghost var p1 := proof[..];
    Overwrite(proof, 32, bY[..]);
    SpliceExtends(p0, [], bX[..]);
    SpliceExtends(p1, bX[..], bY[..]);
    assert proof[..] == proof[..64];
  }

  /** Four coordinates into a fresh 128-byte array with `.set` at offsets 0, 32, 64 and 96. */
  method G2ToUint8Array(x0: int, y0: int, x1: int, y1: int) returns (proof: array<byte>)
    ensures fresh(proof)
    ensures proof[..] == LeG2(x0, y0, x1, y1)
  {
    var bX0 := BigIntToLeUint8Array(x0);
    var bY0 := BigIntToLeUint8Array(y0);
    var bX1 := BigIntToLeUint8Array(x1);
    var bY1 := BigIntToLeUint8Array(y1);
    proof := new byte[128](_ => 0);
    ghost var p0 := proof[..];
    Overwrite(proof, 0, bX0[..]);
    ghost var p1 := proof[..];
    Overwrite(proof, 32, bX1[..]);
    ghost var p2 := proof[..];
    Overwrite(proof, 64, bY0[..]);
    ghost var p3 := proof[..];
    Overwrite(proof, 96, bY1[..]);
    SpliceExtends(p0, [], bX0[..]);
    SpliceExtends(p1, bX0[..], bX1[..]);
    SpliceExtends(p2, bX0[..] + bX1[..], bY0[..]);
    SpliceExtends(p3, bX0[..] + bX1[..] + bY0[..], bY1[..]);
    assert proof[..] == proof[..128];
  }

  /**
   * `proofToUint8Array`: each coordinate through `bigIntToLeUint8Array`, then
   * copied with `.set` into fresh 64-, 128- and 64-byte arrays.  The third
   * entries (projective z) are not read.
   */
  method ProofToUint8Array(piA: seq<int>, piB: seq<seq<int>>, piC: seq<int>)
    returns (proofA: array<byte>, proofB: array<byte>, proofC: array<byte>)
    requires |piA| >= 2 && |piC| >= 2 && |piB| >= 2 && |piB[0]| >= 2 && |piB[1]| >= 2
    ensures fresh(proofA) && fresh(proofB) && fresh(proofC)
    ensures proofA[..] == LeG1(piA[0], piA[1])
    ensures proofB[..] == LeG2(piB[0][0], piB[0][1], piB[1][0], piB[1][1])
    ensures proofC[..] == LeG1(piC[0], piC[1])
  {
    proofA := G1ToUint8Array(piA[0], piA[1]);
    proofB := G2ToUint8Array(piB[0][0], piB[0][1], piB[1][0], piB[1][1]);
    proofC := G1ToUint8Array(piC[0], piC[1]);
  }

  /** Reading the TypeScript layout back gives each coordinate modulo 2^256. */
  lemma LeG1RoundTrip(x: int, y: int)
    ensures LeValue(LeG1(x, y)[..32]) == x % TwoTo256
    ensures LeValue(LeG1(x, y)[32..]) == y % TwoTo256
  {
    assert LeG1(x, y)[..32] == LeBytes(x, 32) && LeG1(x, y)[32..] == LeBytes(y, 32);
    LeValueOfLeBytes(x, 32);
    LeValueOfLeBytes(y, 32);
    Pow256Of32();
  }

  /**
   * For a point C with field coordinates, the TypeScript proofC is the
   * little-endian form of the Rust `proof_c`: the 32-byte conversion maps
   * either one to the other.
   */
  lemma LeProofCMatchesRust(c: G1Affine)
    ensures ConvertEndianness(LeG1(c.x, c.y), 32) == G1Be(c)
    ensures ConvertEndianness(G1Be(c), 32) == LeG1(c.x, c.y)
  {
    LimbsToBe(c.x, c.y);
    ConvertInvolution(LeG1(c.x, c.y), 32);
  }

  /**
   * The TypeScript proofA is not negated: converted to big-endian it is A itself,
   * while the Rust `proof_a` holds -A, and the two differ whenever y != 0.
   */
  lemma LeProofAIsNotNegated(a: G1Affine)
    requires IsFq(a.x) && IsFq(a.y)
    ensures ConvertEndianness(LeG1(a.x, a.y), 32) == G1Be(a)
    ensures a.y != 0 ==> ConvertEndianness(LeG1(a.x, a.y), 32) != G1Be(G1Neg(a))
  {
    LimbsToBe(a.x, a.y);
    if a.y != 0 {
      NegChangesEncoding(a.y);
      assert G1Be(a)[32..] == BeBytes(a.y, 32);
      assert G1Be(G1Neg(a))[32..] == BeBytes(Neg(a.y), 32);
    }
  }

  /** q is odd, so no non-zero field element is its own negative. */
  lemma NegChangesEncoding(y: nat)
    requires IsFq(y) && y != 0
    ensures BeBytes(y, 32) != BeBytes(Neg(y), 32)
  {
    var n := Neg(y);
    assert n == Q - y by {
      DivModUnique(Q - y, Q, 0, Q - y);
    }
    BeFieldRoundTrip(y);
    BeFieldRoundTrip(n);
  }

  /**
   * The TypeScript proofB keeps the real coefficients first (x0, x1, y0, y1 in
   * its own naming), while the Rust `proof_b` puts each imaginary coefficient
   * first: converted to big-endian, the two layouts hold the same four limbs
   * in different orders.
   */
  lemma LeProofBOrder(x0: nat, y0: nat, x1: nat, y1: nat)
    ensures ConvertEndianness(LeG2(x0, y0, x1, y1), 32)
         == BeBytes(x0, 32) + BeBytes(x1, 32) + BeBytes(y0, 32) + BeBytes(y1, 32)
    ensures G2Be(G2Affine(Fq2(x0, y0), Fq2(x1, y1)))
         == BeBytes(y0, 32) + BeBytes(x0, 32) + BeBytes(y1, 32) + BeBytes(x1, 32)
  {
    FourLimbsToBe(x0, x1, y0, y1);
  }

  // ---------------------------------------------------------------------
  // to32ByteBuffer

  /** `s.padStart(len, c)`: pads on the left up to len characters, never truncates. */
  function PadStart(s: string, len: nat, c: char): (r: string)
    ensures |r| == if |s| >= len then |s| else len
    ensures r[|r| - |s|..] == s
    ensures forall i :: 0 <= i < |r| - |s| ==> r[i] == c
  {
    if |s| >= len then s else seq(len - |s|, _ => c) + s
  }

  /**
   * Node's `Buffer.from(hex, "hex")` on a string of hexadecimal digits: one
   * byte per pair of digits, most significant digit first; an odd final digit
   * is dropped.
   */
  function HexDecode(s: string): (r: seq<byte>)
    requires AllHexDigits(s)
    ensures |r| == |s| / 2
    decreases |s|
  {
    if |s| < 2 then
      []
    else if |s| % 2 == 1 then
      HexDecode(s[..|s| - 1])
    else
      var init := s[..|s| - 2];
      HexDecode(init) + [16 * HexDigitValue(s[|s| - 2]) + HexDigitValue(s[|s| - 1])]
  }

  /** An even number of hexadecimal digits decodes to bytes of the same big-endian value. */
  lemma {:induction false} BeValueOfHexDecode(s: string)
    requires AllHexDigits(s) && |s| % 2 == 0
    ensures BeValue(HexDecode(s)) == HexValue(s)
    decreases |s|
  {
    if |s| >= 2 {
      var init, hi, lo := s[..|s| - 2], HexDigitValue(s[|s| - 2]), HexDigitValue(s[|s| - 1]);
      var r := HexDecode(s);
      assert r == HexDecode(init) + [16 * hi + lo];
      assert BeValue(r) == 256 * BeValue(HexDecode(init)) + (16 * hi + lo) by {
        assert r[..|r| - 1] == HexDecode(init);
      }
      assert HexValue(s) == 16 * (16 * HexValue(init) + hi) + lo by {
        assert s[..|s| - 1][..|s| - 2] == init;
      }
      BeValueOfHexDecode(init);
    }
  }

  /** `to32ByteBuffer(n)` for n >= 0. */
  function To32ByteBuffer(n: nat): (r: seq<byte>)
    ensures |r| == (if |ToHex(n)| >= 64 then |ToHex(n)| else 64) / 2
  {
    HexDecode(PadStart(ToHex(n), 64, '0'))
  }

  /**
   * In general the result is the big-endian encoding of n in as many bytes as
   * the padded hexadecimal text has digit pairs; when that text has an odd
   * number of digits, the last digit is lost and the value is n / 16.
   */
  lemma To32ByteBufferValue(n: nat)
    ensures var len := if |ToHex(n)| >= 64 then |ToHex(n)| else 64;
            To32ByteBuffer(n) == BeBytes(if len % 2 == 0 then n else n / 16, len / 2)
  {
    var p := PadStart(ToHex(n), 64, '0');
    PaddedHexValue(n);
    var e := if |p| % 2 == 0 then p else p[..|p| - 1];
    HexDecodeOfEven(p);
    BeValueOfHexDecode(e);
    BeBytesOfBeValue(HexDecode(e));
  }

  /** Padding with '0' keeps the value. */
  lemma PaddedHexValue(n: nat)
    ensures AllHexDigits(PadStart(ToHex(n), 64, '0'))
    ensures HexValue(PadStart(ToHex(n), 64, '0')) == n
  {
    var h := ToHex(n);
    var p := PadStart(h, 64, '0');
    assert p == p[..|p| - |h|] + h;
    HexValueLeadingZeros(p[..|p| - |h|], h);
  }

  /** Decoding reads only an even-length prefix, whose value is the whole value or a sixteenth of it. */
  lemma HexDecodeOfEven(p: string)
    requires AllHexDigits(p)
    ensures var e := if |p| % 2 == 0 then p else p[..|p| - 1];
            && HexDecode(p) == HexDecode(e)
            && HexValue(e) == if |p| % 2 == 0 then HexValue(p) else HexValue(p) / 16
  {
    if |p| % 2 == 1 {
      var e := p[..|p| - 1];
      DivModUnique(HexValue(p), 16, HexValue(e), HexDigitValue(p[|p| - 1]));
    }
  }

  /**
   * For 0 <= n < 2^256 the result is the 32-byte big-endian encoding of n,
   * which is the `bigIntToLeUint8Array(n, 32)` bytes in reverse.
   */
  lemma To32ByteBufferInRange(n: nat)
    requires n < TwoTo256
    ensures To32ByteBuffer(n) == BeBytes(n, 32)
    ensures To32ByteBuffer(n) == Reverse(LeBytes(n, 32))
  {
    Pow16Double(32);
    Pow256Of32();
    ToHexLength(n, 64);
    To32ByteBufferValue(n);
    BeIsReversedLe(n, 32);
  }

  /**
   * `padStart` never truncates, yet every n with 65 hexadecimal digits
   * (2^256 <= n < 2^260) still comes back as 32 bytes: the last digit is lost
   * and the value read is n / 16.
   */
  lemma To32ByteBufferOf65Digits(n: nat)
    requires Pow16(64) <= n < Pow16(65)
    ensures To32ByteBuffer(n) == BeBytes(n / 16, 32)
  {
    var h := ToHex(n);
    ToHexLength(n, 65);
    HexValueBound(h);
    if |h| <= 64 {
      Pow16Monotone(|h|, 64);
    }
    assert |h| == 65;
    To32ByteBufferValue(n);
    assert (if |h| >= 64 then |h| else 64) == 65;
  }

  /** In particular 2^256 gives the 32-byte encoding of 2^252. */
  lemma To32ByteBufferOfTwoTo256()
    ensures To32ByteBuffer(TwoTo256) == BeBytes(TwoTo256 / 16, 32)
  {
    Pow16Double(32);
    Pow256Of32();
    assert Pow16(65) == 16 * Pow16(64);
    To32ByteBufferOf65Digits(TwoTo256);
  }

  lemma {:induction false} Pow16Monotone(j: nat, k: nat)
    requires j <= k
    ensures Pow16(j) <= Pow16(k)
    decreases k
  {
    if j < k {
      Pow16Monotone(j, k - 1);
    }
  }

  /** From 2^260 on, the result is longer than 32 bytes. */
  lemma To32ByteBufferLong(n: nat)
    requires n >= Pow16(65)
    ensures |To32ByteBuffer(n)| > 32
  {
    HexValueBound(ToHex(n));
    if |ToHex(n)| <= 65 {
      Pow16Monotone(|ToHex(n)|, 65);
    }
  }
}
