/**
 * `convert_endianness_vec` (wasm/src/utils.rs): split a byte slice into
 * consecutive chunks of `chunk_size` bytes, reverse the bytes inside each chunk
 * and keep the chunks in order.  `chunks_exact` silently drops a trailing
 * partial chunk, and panics on a chunk size of zero.
 */
module Endianness {
  import opened Bytes

  /** The i-th whole chunk of size k of s. */
  function Chunk<T>(s: seq<T>, i: nat, k: nat): seq<T>
    requires (i + 1) * k <= |s|
  {
    s[i * k..(i + 1) * k]
  }

  lemma DivStep(n: nat, k: nat)
    requires 0 < k <= n
    ensures (n - k) / k == n / k - 1 && (n - k) % k == n % k
  {
    DivModUnique(n, k, (n - k) / k + 1, (n - k) % k);
  }

  /** The source's iterator chain, one chunk at a time. */
  function ConvertEndianness(bytes: seq<byte>, chunkSize: nat): (r: seq<byte>)
    requires chunkSize > 0
    ensures |r| == |bytes| / chunkSize * chunkSize
    decreases |bytes|
  {
    if |bytes| < chunkSize then
      []
    else
      DivStep(|bytes|, chunkSize);
      Reverse(bytes[..chunkSize]) + ConvertEndianness(bytes[chunkSize..], chunkSize)
  }

  /** Output byte i*k + j is input byte i*k + (k-1-j): each whole chunk is reversed in place. */
  lemma {:induction false} ConvertEndiannessAt(bytes: seq<byte>, k: nat, i: nat, j: nat)
    requires k > 0 && j < k && (i + 1) * k <= |bytes|
    ensures i * k + j < |ConvertEndianness(bytes, k)|
    ensures ConvertEndianness(bytes, k)[i * k + j] == bytes[i * k + (k - 1 - j)]
    decreases i
  {
    var r := ConvertEndianness(bytes, k);
    var ik := i * k;
    assert (i + 1) * k == ik + k;
    DivStep(|bytes|, k);
    var head, rest := Reverse(bytes[..k]), ConvertEndianness(bytes[k..], k);
    assert r == head + rest;
    if i == 0 {
      assert ik == 0;
      assert r[j] == head[j];
    } else {
      var pk := (i - 1) * k;
      assert ik == pk + k;
      ConvertEndiannessAt(bytes[k..], k, i - 1, j);
      assert rest[pk + j] == bytes[k..][pk + (k - 1 - j)];
      assert r[ik + j] == rest[pk + j];
    }
  }

  /** Chunk order is kept: chunk i of the output is chunk i of the input, reversed. */
  lemma ChunkReversed(bytes: seq<byte>, k: nat, i: nat)
    requires k > 0 && (i + 1) * k <= |bytes|
    ensures (i + 1) * k <= |ConvertEndianness(bytes, k)|
    ensures Chunk(ConvertEndianness(bytes, k), i, k) == Reverse(Chunk(bytes, i, k))
  {
    var r := ConvertEndianness(bytes, k);
    var ik := i * k;
    assert (i + 1) * k == ik + k;
    ConvertEndiannessAt(bytes, k, i, k - 1);
    forall t | ik <= t < ik + k
      ensures r[t] == bytes[2 * ik + k - 1 - t]
    {
      ConvertEndiannessAt(bytes, k, i, t - ik);
    }
    SliceReversed(bytes, r, ik, k);
  }

  /** A window of r that mirrors the same window of s is its reversal. */
  lemma SliceReversed(s: seq<byte>, r: seq<byte>, start: nat, k: nat)
    requires start + k <= |s| && start + k <= |r|
    requires forall t :: start <= t < start + k ==> r[t] == s[2 * start + k - 1 - t]
    ensures r[start..start + k] == Reverse(s[start..start + k])
  {
    var a, b := r[start..start + k], Reverse(s[start..start + k]);
    forall j | 0 <= j < k
      ensures a[j] == b[j]
    {
      assert a[j] == r[start + j];
    }
  }

  /** A trailing partial chunk is dropped, not reported. */
  lemma {:induction false} PartialChunkDropped(bytes: seq<byte>, k: nat)
    requires k > 0
    ensures ConvertEndianness(bytes, k) == ConvertEndianness(bytes[..|bytes| / k * k], k)
    decreases |bytes|
  {
    var m := |bytes| / k * k;
    if |bytes| >= k {
      DivStep(|bytes|, k);
      var rest := bytes[k..];
      assert m == |rest| / k * k + k;
      assert bytes[..m][..k] == bytes[..k];
      assert bytes[..m][k..] == rest[..|rest| / k * k];
      PartialChunkDropped(rest, k);
    } else {
      assert m == 0 by {
        DivModUnique(|bytes|, k, 0, |bytes|);
      }
    }
  }

  /** Converting a concatenation whose first part is whole chunks converts the parts separately. */
  lemma {:induction false} ConvertAppend(a: seq<byte>, b: seq<byte>, k: nat)
    requires k > 0 && |a| % k == 0
    ensures ConvertEndianness(a + b, k) == ConvertEndianness(a, k) + ConvertEndianness(b, k)
    decreases |a|
  {
    if |a| > 0 {
      assert |a| >= k by {
        if |a| < k {
          DivModUnique(|a|, k, 0, |a|);
        }
      }
      DivStep(|a|, k);
      assert (a + b)[..k] == a[..k];
      assert (a + b)[k..] == a[k..] + b;
      ConvertAppend(a[k..], b, k);
    } else {
      assert a + b == b;
    }
  }

  /** Converting one whole chunk followed by anything. */
  lemma ConvertCons(c: seq<byte>, rest: seq<byte>, k: nat)
    requires k > 0 && |c| == k
    ensures ConvertEndianness(c + rest, k) == Reverse(c) + ConvertEndianness(rest, k)
  {
    assert (c + rest)[..k] == c;
    assert (c + rest)[k..] == rest;
  }

  /** When the length is a multiple of the chunk size, converting twice restores the input. */
  lemma {:induction false} ConvertInvolution(bytes: seq<byte>, k: nat)
    requires k > 0 && |bytes| % k == 0
    ensures ConvertEndianness(ConvertEndianness(bytes, k), k) == bytes
    decreases |bytes|
  {
    if |bytes| > 0 {
      assert |bytes| >= k by {
        if |bytes| < k {
          DivModUnique(|bytes|, k, 0, |bytes|);
        }
      }
      DivStep(|bytes|, k);
      var head, rest := bytes[..k], bytes[k..];
      assert head + rest == bytes;
      ConvertCons(head, rest, k);
      ConvertCons(Reverse(head), ConvertEndianness(rest, k), k);
      ReverseReverse(head);
      ConvertInvolution(rest, k);
    }
  }

  /** With chunk size 1 nothing moves. */
  lemma {:induction false} ConvertChunkOneIsIdentity(bytes: seq<byte>)
    ensures ConvertEndianness(bytes, 1) == bytes
    decreases |bytes|
  {
    if |bytes| > 0 {
      ConvertChunkOneIsIdentity(bytes[1..]);
      assert [bytes[0]] + bytes[1..] == bytes;
    }
  }

  /** With the whole slice as one chunk it is a full reversal. */
  lemma ConvertWholeIsReverse(bytes: seq<byte>)
    requires |bytes| > 0
    ensures ConvertEndianness(bytes, |bytes|) == Reverse(bytes)
  {
    assert bytes[..|bytes|] == bytes;
  }

  /**
   * The limb shuffle of `set_proof_b`: after the 32-byte conversion, swap the two
   * halves of each 64-byte coordinate.
   */
  function SwapLimbPairs(be: seq<byte>): (r: seq<byte>)
    requires |be| == 128
  {
    be[32..64] + be[0..32] + be[96..128] + be[64..96]
  }

  lemma SwapOfFourLimbs(r0: seq<byte>, r1: seq<byte>, r2: seq<byte>, r3: seq<byte>)
    requires |r0| == |r1| == |r2| == |r3| == 32
    ensures SwapLimbPairs(r0 + r1 + r2 + r3) == r1 + r0 + r3 + r2
  {
    var be := r0 + r1 + r2 + r3;
    assert be[32..64] == r1;
    assert be[0..32] == r0;
    assert be[96..128] == r3;
    assert be[64..96] == r2;
  }

  lemma ConvertFourChunks(c0: seq<byte>, c1: seq<byte>, c2: seq<byte>, c3: seq<byte>)
    requires |c0| == |c1| == |c2| == |c3| == 32
    ensures ConvertEndianness(c0 + c1 + c2 + c3, 32) == Reverse(c0) + Reverse(c1) + Reverse(c2) + Reverse(c3)
  {
    ConvertWholeIsReverse(c3);
    ConvertCons(c2, c3, 32);
    ConvertCons(c1, c2 + c3, 32);
    ConvertCons(c0, c1 + (c2 + c3), 32);
    assert c0 + c1 + c2 + c3 == c0 + (c1 + (c2 + c3));
  }

  /** A 128-byte slice is its four 32-byte limbs. */
  lemma FourLimbsOf(le: seq<byte>)
    requires |le| == 128
    ensures le == le[0..32] + le[32..64] + le[64..96] + le[96..128]
    ensures le[0..64] == le[0..32] + le[32..64] && le[64..128] == le[64..96] + le[96..128]
  {
  }

  lemma ConvertFourLimbs(le: seq<byte>)
    requires |le| == 128
    ensures ConvertEndianness(le, 32)
         == Reverse(le[0..32]) + Reverse(le[32..64]) + Reverse(le[64..96]) + Reverse(le[96..128])
  {
    FourLimbsOf(le);
    ConvertFourChunks(le[0..32], le[32..64], le[64..96], le[96..128]);
  }

  /** Two chunks of k bytes convert to the two reversals. */
  lemma ConvertTwoChunks(x: seq<byte>, y: seq<byte>)
    requires |x| == |y| > 0
    ensures ConvertEndianness(x + y, |x|) == Reverse(x) + Reverse(y)
  {
    ConvertWholeIsReverse(y);
    ConvertCons(x, y, |x|);
  }

  lemma ConvertTwoCoordinates(le: seq<byte>)
    requires |le| == 128
    ensures ConvertEndianness(le, 64)
         == Reverse(le[32..64]) + Reverse(le[0..32]) + Reverse(le[96..128]) + Reverse(le[64..96])
  {
    FourLimbsOf(le);
    var l0, l1, l2, l3 := le[0..32], le[32..64], le[64..96], le[96..128];
    assert le == (l0 + l1) + (l2 + l3);
    ConvertTwoChunks(l0 + l1, l2 + l3);
    ReverseAppend(l0, l1);
    ReverseAppend(l2, l3);
    assert (Reverse(l1) + Reverse(l0)) + (Reverse(l3) + Reverse(l2))
        == Reverse(l1) + Reverse(l0) + Reverse(l3) + Reverse(l2);
  }

  /**
   * Converting each 32-byte limb and then swapping the limb pairs is the same as
   * converting 64-byte chunks (the form used to read `proof_b` back in the tests).
   */
  lemma Chunk32ThenSwapIsChunk64(le: seq<byte>)
    requires |le| == 128
    ensures SwapLimbPairs(ConvertEndianness(le, 32)) == ConvertEndianness(le, 64)
  {
    ConvertFourLimbs(le);
    ConvertTwoCoordinates(le);
    SwapOfFourLimbs(Reverse(le[0..32]), Reverse(le[32..64]), Reverse(le[64..96]), Reverse(le[96..128]));
  }
}
