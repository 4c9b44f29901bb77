/**
 * utils/helpers.ts: `explorerUrl`, the Solana explorer link for a
 * transaction, and `bigIntToLeUint8Array`, the fixed-width little-endian
 * encoder.  The encoder's loop peels off the lowest byte with `& 0xffn` and
 * shifts right with `>>= 8n`; on BigInts these are floor division and a
 * non-negative remainder, which are exactly Dafny's `/` and `%` by 256.
 */
module Helpers {
  import opened Bytes

  const ExplorerTxPrefix: string := "https://explorer.solana.com/tx/"
  const ClusterQuery: string := "?cluster="

  /** The explorer link: fixed prefix, the transaction, then the cluster query. */
  function ExplorerUrl(tx: string, cluster: string := "devnet"): (r: string)
    ensures |r| == |ExplorerTxPrefix| + |tx| + |ClusterQuery| + |cluster|
    ensures r[..|ExplorerTxPrefix|] == ExplorerTxPrefix
    ensures r[|ExplorerTxPrefix|..|ExplorerTxPrefix| + |tx|] == tx
    ensures r[|ExplorerTxPrefix| + |tx|..|r| - |cluster|] == "?cluster="
    ensures r[|r| - |cluster|..] == cluster
  {
    ExplorerTxPrefix + tx + ClusterQuery + cluster
  }

  /** The index of the first '?' in s, if any. */
  function FirstQuestionMark(s: string): (r: nat)
    ensures r <= |s|
    ensures forall i :: 0 <= i < r ==> s[i] != '?'
    ensures r < |s| ==> s[r] == '?'
  {
    if s == [] then 0 else if s[0] == '?' then 0 else 1 + FirstQuestionMark(s[1..])
  }

  lemma {:induction false} FirstQuestionMarkAfter(p: string, t: string)
    requires '?' !in p
    ensures FirstQuestionMark(p + t) == |p| + FirstQuestionMark(t)
  {
    if p != [] {
      assert (p + t)[1..] == p[1..] + t;
      FirstQuestionMarkAfter(p[1..], t);
    } else {
      assert p + t == t;
    }
  }

  /**
   * The link determines the transaction and the cluster, as long as the
   * transaction id holds no '?' (base58 signatures never do).
   */
  lemma ExplorerUrlInjective(tx1: string, cluster1: string, tx2: string, cluster2: string)
    requires '?' !in tx1 && '?' !in tx2
    requires ExplorerUrl(tx1, cluster1) == ExplorerUrl(tx2, cluster2)
    ensures tx1 == tx2 && cluster1 == cluster2
  {
    var p, q := ExplorerTxPrefix, ClusterQuery;
    assert '?' !in p && |q| > 0 && q[0] == '?';
    JoinHalves(p, tx1, q, cluster1);
    JoinHalves(p, tx2, q, cluster2);
    SplitAtFirstMark(p + tx1, q + cluster1, p + tx2, q + cluster2);
    assert tx1 == (p + tx1)[|p|..] && tx2 == (p + tx2)[|p|..];
    assert cluster1 == (q + cluster1)[|q|..] && cluster2 == (q + cluster2)[|q|..];
  }

  lemma JoinHalves(a: string, b: string, c: string, d: string)
    ensures a + b + c + d == (a + b) + (c + d)
  {
  }

  /** Two ways of writing a text as a '?'-free part followed by a part starting with '?' agree. */
  lemma SplitAtFirstMark(p1: string, s1: string, p2: string, s2: string)
    requires '?' !in p1 && '?' !in p2
    requires |s1| > 0 && s1[0] == '?' && |s2| > 0 && s2[0] == '?'
    requires (p1 + s1) == (p2 + s2)
    ensures p1 == p2 && s1 == s2
  {
    FirstQuestionMarkAfter(p1, s1);
    FirstQuestionMarkAfter(p2, s2);
    assert |p1| == |p2|;
    assert p1 == (p1 + s1)[..|p1|] && p2 == (p2 + s2)[..|p2|];
    assert s1 == (p1 + s1)[|p1|..] && s2 == (p2 + s2)[|p2|..];
  }

  /** Without that condition the link is ambiguous. */
  lemma ExplorerUrlAmbiguous()
    ensures ExplorerUrl("a?cluster=b", "c") == ExplorerUrl("a", "b?cluster=c")
  {
  }

  /**
   * `bigIntToLeUint8Array(n, byteLength)`: exactly `byteLength` bytes, byte i
   * being floor(n / 256^i) mod 256; bits above 8 * byteLength are dropped.
   */
  method BigIntToLeUint8Array(n: int, byteLength: nat := 32) returns (buffer: array<byte>)
    ensures fresh(buffer)
    ensures buffer[..] == LeBytes(n, byteLength)
  {
    var bn := n;
    buffer := new byte[byteLength](_ => 0);
    for i := 0 to byteLength
      invariant bn == n / Pow256(i)
      invariant buffer[..i] == LeBytes(n, i)
    {
      buffer[i] := bn % 256;
      LeBytesSnoc(n, i);
      DivDiv(n, Pow256(i), 256);
      bn := bn / 256;
    }
    assert buffer[..] == buffer[..byteLength];
  }
}
