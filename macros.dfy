/**
 * programs/zk-factor/src/macros.rs: `public_input!(num, size)` expands to a
 * `const fn make_input` that writes the low `size` bytes of `num`, most
 * significant first, into the last `size` bytes of a zeroed 32-byte array and
 * returns that array wrapped in a one-element array.
 */
module Macros {
  import opened Bytes

  /**
   * `make_input` for `public_input!(num, size)`.  `START = 32 - size` must not
   * underflow, so size is at most 32.
   */
  method MakeInput(num: nat, size: nat) returns (r: seq<seq<byte>>)
    requires size <= 32
    ensures |r| == 1 && |r[0]| == 32
    ensures forall k :: 0 <= k < 32 ==>
              r[0][k] == if k < 32 - size then 0 else num / Pow256(31 - k) % 256
    ensures r[0] == Zeros(32 - size) + BeBytes(num, size)
  {
    var bytes := new byte[32](_ => 0);
    var start := 32 - size;
    var i := 0;
    while i < size
      invariant 0 <= i <= size
      invariant forall k :: 0 <= k < 32 ==>
                  bytes[k] == if start <= k < start + i then num / Pow256(31 - k) % 256 else 0
    {
      bytes[start + i] := num / Pow256(size - 1 - i) % 256;
      i := i + 1;
    }
    r := [bytes[..]];
    forall j | 0 <= j < size
      ensures bytes[start + j] == BeBytes(num, size)[j]
    {
      BeBytesAt(num, size, j);
    }
    assert bytes[..] == Zeros(start) + BeBytes(num, size);
  }

  /** Below 256^size the array is the 32-byte big-endian encoding of num. */
  lemma MakeInputInRange(num: nat, size: nat)
    requires size <= 32 && num < Pow256(size)
    ensures Zeros(32 - size) + BeBytes(num, size) == BeBytes(num, 32)
  {
    BeBytesPadded(num, size, 32 - size);
  }

  /** Bytes of num above `size` are dropped: only num mod 256^size is written. */
  lemma MakeInputDropsHighBytes(num: nat, size: nat)
    ensures BeBytes(num, size) == BeBytes(num % Pow256(size), size)
  {
    BeBytesMod(num, size);
  }

  /** Widening the encoding of a number that already fits adds leading zero bytes. */
  lemma {:induction false} BeBytesPadded(num: nat, size: nat, pad: nat)
    requires num < Pow256(size)
    ensures Zeros(pad) + BeBytes(num, size) == BeBytes(num, size + pad)
    decreases size
  {
    if size == 0 {
      assert num == 0;
      ZerosEncodeZero(pad);
      assert Zeros(pad) + [] == Zeros(pad);
    } else {
      DivModUnique(num, 256, num / 256, num % 256);
      assert num / 256 < Pow256(size - 1);
      BeBytesPadded(num / 256, size - 1, pad);
      assert size + pad - 1 == size - 1 + pad;
    }
  }

  lemma {:induction false} ZerosEncodeZero(len: nat)
    ensures BeBytes(0, len) == Zeros(len)
  {
    if len > 0 {
      ZerosEncodeZero(len - 1);
      assert Zeros(len) == Zeros(len - 1) + [0];
    }
  }
}
