/**
 * Bytes and the two fixed-width integer encodings every part of the adapter
 * is built from: little-endian (least significant byte first, as `to_bytes_le`,
 * `bigIntToLeUint8Array` and `leInt2Buff` produce) and big-endian (most
 * significant byte first, as the pairing syscalls expect).  These are the
 * reference definitions the operations of the other modules are proved against.
 */
module Bytes {

  /** An unsigned 8-bit value (`u8`, an element of a `Uint8Array`). */
  type byte = x: int | 0 <= x < 256

  /** 256^n, the number of distinct values an n-byte buffer can hold. */
  function Pow256(n: nat): (r: nat)
    ensures r >= 1
  {
    if n == 0 then 1 else 256 * Pow256(n - 1)
  }

  /** 2^256, the range of a 32-byte buffer. */
  const TwoTo256: nat := 0x1_0000_0000_0000_0000_0000_0000_0000_0000_0000_0000_0000_0000_0000_0000_0000_0000

  lemma Pow256Of32()
    ensures Pow256(32) == TwoTo256
  {
    assert Pow256(8) == 0x1_0000_0000_0000_0000;
    assert Pow256(16) == 0x1_0000_0000_0000_0000_0000_0000_0000_0000 by {
      Pow256Add(8, 8);
    }
    Pow256Add(16, 16);
  }

  lemma {:induction false} Pow256Add(m: nat, n: nat)
    ensures Pow256(m + n) == Pow256(m) * Pow256(n)
  {
    if m > 0 {
      Pow256Add(m - 1, n);
    }
  }

  /** The sequence read back to front. */
  function Reverse<T>(s: seq<T>): (r: seq<T>)
    ensures |r| == |s|
    ensures forall i :: 0 <= i < |s| ==> r[i] == s[|s| - 1 - i]
  {
    if s == [] then [] else Reverse(s[1..]) + [s[0]]
  }

  lemma ReverseReverse<T>(s: seq<T>)
    ensures Reverse(Reverse(s)) == s
  {
  }

  lemma ReverseAppend<T>(a: seq<T>, b: seq<T>)
    ensures Reverse(a + b) == Reverse(b) + Reverse(a)
  {
    var r, t := Reverse(a + b), Reverse(b) + Reverse(a);
    assert |r| == |t|;
    forall i | 0 <= i < |r|
      ensures r[i] == t[i]
    {
      if i < |b| {
        assert t[i] == Reverse(b)[i];
      } else {
        assert t[i] == Reverse(a)[i - |b|];
      }
    }
  }

  // ---------------------------------------------------------------------
  // Euclidean division facts (Dafny's `/` and `%` on a positive divisor are
  // floor division and a non-negative remainder, exactly as JavaScript's
  // BigInt `>> 8n` and `& 0xffn` behave on any integer).

  lemma {:induction false} MulAtLeast(d: int, k: int)
    requires d > 0 && k >= 1
    ensures d * k >= d
    decreases k
  {
    if k > 1 {
      MulAtLeast(d, k - 1);
      assert d * k == d * (k - 1) + d;
    }
  }

  lemma DivModUnique(n: int, d: int, q: int, r: int)
    requires d > 0 && 0 <= r < d && n == d * q + r
    ensures n / d == q && n % d == r
  {
    var q', r' := n / d, n % d;
    assert n == d * q' + r';
    if q > q' {
      MulAtLeast(d, q - q');
    } else if q < q' {
      MulAtLeast(d, q' - q);
    }
  }

  lemma DivDiv(n: int, a: int, b: int)
    requires a > 0 && b > 0
    ensures n / a / b == n / (a * b)
    ensures n % (a * b) == n % a + a * (n / a % b)
  {
    var q1, r1 := n / a, n % a;
    var q2, r2 := q1 / b, q1 % b;
    assert n == (a * b) * q2 + (a * r2 + r1) by {
      assert n == a * q1 + r1;
      assert q1 == b * q2 + r2;
      assert a * q1 == a * (b * q2) + a * r2;
    }
    assert a * r2 <= a * (b - 1);
    DivModUnique(n, a * b, q2, a * r2 + r1);
  }

  // ---------------------------------------------------------------------
  // Little-endian encoding.

  /** n in `len` bytes, least significant first; bits above 8*len are dropped. */
  function LeBytes(n: int, len: nat): (r: seq<byte>)
    ensures |r| == len
    decreases len
  {
    if len == 0 then [] else [n % 256] + LeBytes(n / 256, len - 1)
  }

  /** One byte more: the encoding grows by the next digit base 256. */
  lemma {:induction false} LeBytesSnoc(n: int, len: nat)
    ensures LeBytes(n, len + 1) == LeBytes(n, len) + [n / Pow256(len) % 256]
    decreases len
  {
    if len > 0 {
      LeBytesSnoc(n / 256, len - 1);
      DivDiv(n, 256, Pow256(len - 1));
    }
  }

  /** The unsigned integer a little-endian buffer denotes. */
  function LeValue(b: seq<byte>): nat
  {
    if b == [] then 0 else b[0] + 256 * LeValue(b[1..])
  }

  /** Byte i of the little-endian encoding is floor(n / 256^i) mod 256. */
  lemma {:induction false} LeBytesAt(n: int, len: nat, i: nat)
    requires i < len
    ensures LeBytes(n, len)[i] == n / Pow256(i) % 256
    decreases len
  {
    if i > 0 {
      LeBytesAt(n / 256, len - 1, i - 1);
      DivDiv(n, 256, Pow256(i - 1));
    }
  }

  lemma {:induction false} LeValueBound(b: seq<byte>)
    ensures LeValue(b) < Pow256(|b|)
  {
    if b != [] {
      LeValueBound(b[1..]);
    }
  }

  /** Decoding an encoding gives back n modulo 256^len. */
  lemma {:induction false} LeValueOfLeBytes(n: int, len: nat)
    ensures LeValue(LeBytes(n, len)) == n % Pow256(len)
    decreases len
  {
    if len > 0 {
      var r := LeBytes(n, len);
      assert r[1..] == LeBytes(n / 256, len - 1);
      LeValueOfLeBytes(n / 256, len - 1);
      DivDiv(n, 256, Pow256(len - 1));
    }
  }

  /** Encoding a buffer's value at the buffer's width gives back the buffer. */
  lemma {:induction false} LeBytesOfLeValue(b: seq<byte>)
    ensures LeBytes(LeValue(b), |b|) == b
  {
    if b != [] {
      LeBytesOfLeValue(b[1..]);
      var v := LeValue(b);
      DivModUnique(v, 256, LeValue(b[1..]), b[0]);
    }
  }

  /** Only n modulo 256^len matters to the encoding. */
  lemma LeBytesMod(n: int, len: nat)
    ensures LeBytes(n % Pow256(len), len) == LeBytes(n, len)
  {
    LeValueOfLeBytes(n, len);
    LeBytesOfLeValue(LeBytes(n, len));
  }

  /** For n in range the little-endian round trip is exact. */
  lemma LeRoundTrip(n: nat, len: nat)
    requires n < Pow256(len)
    ensures LeValue(LeBytes(n, len)) == n
  {
    LeValueOfLeBytes(n, len);
  }

  // ---------------------------------------------------------------------
  // Big-endian encoding.

  /** n in `len` bytes, most significant first; bits above 8*len are dropped. */
  function BeBytes(n: int, len: nat): (r: seq<byte>)
    ensures |r| == len
    decreases len
  {
    if len == 0 then [] else BeBytes(n / 256, len - 1) + [n % 256]
  }

  /** The unsigned integer a big-endian buffer denotes. */
  function BeValue(b: seq<byte>): nat
  {
    if b == [] then 0 else 256 * BeValue(b[..|b| - 1]) + b[|b| - 1]
  }

  /** The big-endian encoding is the little-endian one read back to front. */
  lemma {:induction false} BeIsReversedLe(n: int, len: nat)
    ensures BeBytes(n, len) == Reverse(LeBytes(n, len))
    decreases len
  {
    if len > 0 {
      BeIsReversedLe(n / 256, len - 1);
      ReverseAppend([n % 256], LeBytes(n / 256, len - 1));
    }
  }

  lemma {:induction false} BeValueIsReversedLeValue(b: seq<byte>)
    ensures BeValue(b) == LeValue(Reverse(b))
  {
    if b != [] {
      var last, init := b[|b| - 1], b[..|b| - 1];
      assert b == init + [last];
      ReverseAppend(init, [last]);
      assert Reverse(b) == [last] + Reverse(init);
      assert Reverse(b)[1..] == Reverse(init);
      BeValueIsReversedLeValue(init);
    }
  }

  /** Byte i of the big-endian encoding is floor(n / 256^(len-1-i)) mod 256. */
  lemma BeBytesAt(n: int, len: nat, i: nat)
    requires i < len
    ensures BeBytes(n, len)[i] == n / Pow256(len - 1 - i) % 256
  {
    BeIsReversedLe(n, len);
    LeBytesAt(n, len, len - 1 - i);
  }

  /** Decoding a big-endian encoding gives back n modulo 256^len. */
  lemma BeValueOfBeBytes(n: int, len: nat)
    ensures BeValue(BeBytes(n, len)) == n % Pow256(len)
  {
    BeIsReversedLe(n, len);
    BeValueIsReversedLeValue(BeBytes(n, len));
    ReverseReverse(LeBytes(n, len));
    LeValueOfLeBytes(n, len);
  }

  lemma BeBytesMod(n: int, len: nat)
    ensures BeBytes(n % Pow256(len), len) == BeBytes(n, len)
  {
    BeIsReversedLe(n, len);
    BeIsReversedLe(n % Pow256(len), len);
    LeBytesMod(n, len);
  }

  /** Encoding a buffer's big-endian value at the buffer's width gives back the buffer. */
  lemma BeBytesOfBeValue(b: seq<byte>)
    ensures BeBytes(BeValue(b), |b|) == b
  {
    BeValueIsReversedLeValue(b);
    LeBytesOfLeValue(Reverse(b));
    BeIsReversedLe(BeValue(b), |b|);
    ReverseReverse(b);
  }

  /** A buffer of n zero bytes. */
  function Zeros(n: nat): (r: seq<byte>)
    ensures |r| == n && forall i :: 0 <= i < n ==> r[i] == 0
  {
    seq(n, _ => 0)
  }

  // ---------------------------------------------------------------------
  // Overwriting part of a buffer (`Vec::splice` over an equal-length range,
  // `Uint8Array.prototype.set`).

  /** The result of overwriting buf[start .. start + |bytes|) with bytes . */
  function Spliced(buf: seq<byte>, start: nat, bytes: seq<byte>): (r: seq<byte>)
    requires start + |bytes| <= |buf|
    ensures |r| == |buf|
    ensures r[start..start + |bytes|] == bytes
    ensures forall i :: 0 <= i < |buf| && !(start <= i < start + |bytes|) ==> r[i] == buf[i]
  {
    buf[..start] + bytes + buf[start + |bytes|..]
  }

  /** Copies bytes into dst starting at index start, one byte at a time. */
  method Overwrite(dst: array<byte>, start: nat, bytes: seq<byte>)
    requires start + |bytes| <= dst.Length
    modifies dst
    ensures dst[..] == Spliced(old(dst[..]), start, bytes)
  {
    for i := 0 to |bytes|
      invariant dst[..] == Spliced(old(dst[..]), start, bytes[..i])
    {
      dst[start + i] := bytes[i];
      assert bytes[..i + 1] == bytes[..i] + [bytes[i]];
    }
    assert bytes[..|bytes|] == bytes;
  }
}
