/**
 * vk_to_rs.ts: turns a snarkjs verifying key (already parsed from JSON) into
 * the Rust source of a `Groth16Verifyingkey` constant.  First every
 * coordinate is overwritten in place by its bytes: G1 coordinates (alpha and
 * the IC points) as 32 big-endian bytes, each G2 coefficient pair [c0, c1] as
 * [BE32(c1), BE32(c0)], and the pairing value alphabeta as minimal-length
 * little-endian bytes.  Then the bytes are written out as Rust array
 * literals, leaving out the last entry (the projective z) of every list.
 */
module VkToRs {
  import opened Wrappers
  import opened Bytes
  import opened Text
  import opened Bn254
  import opened Proofs

  /** A coordinate slot of the key: a number before conversion, bytes after. */
  datatype Coord = Num(value: int) | Buf(bytes: seq<byte>)

  /** `leInt2Buff(n, 32)` throws unless 0 <= n < 2^256. */
  predicate Fits32(c: Coord)
  {
    c.Num? && 0 <= c.value < TwoTo256
  }

  // ---------------------------------------------------------------------
  // Conversion of one coordinate or one coefficient pair.

  /** `leInt2Buff(n, 32).reverse()`: the big-endian 32 bytes. */
  function ConvertG1Entry(c: Coord): (r: Coord)
    requires Fits32(c)
    ensures r == Buf(BeBytes(c.value, 32))
  {
    BeIsReversedLe(c.value, 32);
    Buf(Reverse(LeBytes(c.value, 32)))
  }

  /** The 32 bytes read back, big-endian, as the coordinate. */
  lemma G1EntryRoundTrip(c: Coord)
    requires Fits32(c)
    ensures BeValue(ConvertG1Entry(c).bytes) == c.value
  {
    BeValueOfBeBytes(c.value, 32);
    Pow256Of32();
    DivModUnique(c.value, Pow256(32), 0, c.value);
  }

  predicate G2Convertible(row: seq<Coord>)
  {
    |row| >= 2 && Fits32(row[0]) && Fits32(row[1])
  }

  /**
   * `tmp = [...leInt2Buff(c0, 32), ...leInt2Buff(c1, 32)].reverse()`, then
   * `row[0] = tmp[0..32]` and `row[1] = tmp[32..64]`: the imaginary
   * coefficient c1 comes first, each big-endian; further entries are kept.
   */
  function ConvertG2Entry(row: seq<Coord>): (r: seq<Coord>)
    requires G2Convertible(row)
    ensures |r| == |row| && r[2..] == row[2..]
    ensures r[0] == Buf(BeBytes(row[1].value, 32)) && r[1] == Buf(BeBytes(row[0].value, 32))
  {
    var c0, c1 := LeBytes(row[0].value, 32), LeBytes(row[1].value, 32);
    var tmp := Reverse(c0 + c1);
    ReverseAppend(c0, c1);
    BeIsReversedLe(row[0].value, 32);
    BeIsReversedLe(row[1].value, 32);
    assert tmp[0..32] == Reverse(c1) && tmp[32..64] == Reverse(c0);
    [Buf(tmp[0..32]), Buf(tmp[32..64])] + row[2..]
  }

  /** The byte length `leInt2Buff(n)` picks when none is given: as few bytes as hold n, at least one. */
  function MinByteLen(n: nat): (r: nat)
    ensures r >= 1 && n < Pow256(r)
    ensures r > 1 ==> n >= Pow256(r - 1)
  {
    if n < 256 then 1
    else
      var k := MinByteLen(n / 256);
      DivModUnique(n, 256, n / 256, n % 256);
      k + 1
  }

  /** `leInt2Buff(n)` on an alphabeta entry. */
  function ConvertAlphabetaEntry(c: Coord): (r: Coord)
    requires c.Num? && c.value >= 0
    ensures r.Buf? && |r.bytes| == MinByteLen(c.value) && LeValue(r.bytes) == c.value
  {
    LeRoundTrip(c.value, MinByteLen(c.value));
    Buf(LeBytes(c.value, MinByteLen(c.value)))
  }

  /** With field coordinates, a converted pair of G2 rows is exactly the `proof_b` layout. */
  lemma G2RowsMatchProofB(x: seq<Coord>, y: seq<Coord>)
    requires G2Convertible(x) && G2Convertible(y)
    ensures ConvertG2Entry(x)[0].bytes + ConvertG2Entry(x)[1].bytes
          + ConvertG2Entry(y)[0].bytes + ConvertG2Entry(y)[1].bytes
         == G2Be(G2Affine(Fq2(x[0].value, x[1].value), Fq2(y[0].value, y[1].value)))
  {
  }

  // ---------------------------------------------------------------------
  // The conversion loops, one per key.

  predicate G1Convertible(entries: seq<Coord>)
  {
    forall i :: 0 <= i < |entries| ==> Fits32(entries[i])
  }

  predicate G2RowsConvertible(rows: seq<seq<Coord>>)
  {
    forall j :: 0 <= j < |rows| ==> G2Convertible(rows[j])
  }

  predicate IcConvertible(ic: seq<seq<Coord>>)
  {
    forall j :: 0 <= j < |ic| ==> G1Convertible(ic[j])
  }

  predicate AlphabetaConvertible(v: seq<seq<seq<Coord>>>)
  {
    forall j, z, u :: 0 <= j < |v| && 0 <= z < |v[j]| && 0 <= u < |v[j][z]| ==> v[j][z][u].Num? && v[j][z][u].value >= 0
  }

  /** `value.map(elem => leInt2Buff(elem, 32).reverse())` */
  function ConvertedG1(entries: seq<Coord>): (r: seq<Coord>)
    requires G1Convertible(entries)
    ensures |r| == |entries|
  {
    seq(|entries|, i requires 0 <= i < |entries| => ConvertG1Entry(entries[i]))
  }

  function ConvertedG2(rows: seq<seq<Coord>>): (r: seq<seq<Coord>>)
    requires G2RowsConvertible(rows)
    ensures |r| == |rows|
  {
    seq(|rows|, j requires 0 <= j < |rows| => ConvertG2Entry(rows[j]))
  }

  function ConvertedIc(ic: seq<seq<Coord>>): (r: seq<seq<Coord>>)
    requires IcConvertible(ic)
    ensures |r| == |ic|
  {
    seq(|ic|, j requires 0 <= j < |ic| => ConvertedG1(ic[j]))
  }

  function ConvertedAlphabeta(v: seq<seq<seq<Coord>>>): (r: seq<seq<seq<Coord>>>)
    requires AlphabetaConvertible(v)
    ensures |r| == |v|
  {
    seq(|v|, j requires 0 <= j < |v| =>
      seq(|v[j]|, z requires 0 <= z < |v[j]| =>
        seq(|v[j][z]|, u requires 0 <= u < |v[j][z]| => ConvertAlphabetaEntry(v[j][z][u]))))
  }

  /** The beta, gamma and delta loop: each row's first two entries replaced, in order. */
  method ConvertG2Rows(rows: seq<seq<Coord>>) returns (out: seq<seq<Coord>>)
    requires G2RowsConvertible(rows)
    ensures out == ConvertedG2(rows)
    ensures forall j :: 0 <= j < |rows| ==>
              (&& |out[j]| == |rows[j]|
               && out[j][0] == Buf(BeBytes(rows[j][1].value, 32))
               && out[j][1] == Buf(BeBytes(rows[j][0].value, 32)))
  {
    out := rows;
    for j := 0 to |rows|
      invariant |out| == |rows|
      invariant forall k :: 0 <= k < j ==> out[k] == ConvertG2Entry(rows[k])
      invariant forall k :: j <= k < |rows| ==> out[k] == rows[k]
    {
      out := out[j := ConvertG2Entry(out[j])];
    }
  }

  /** The inner IC loop over the coordinates of one point. */
  method ConvertG1Row(point: seq<Coord>) returns (out: seq<Coord>)
    requires G1Convertible(point)
    ensures out == ConvertedG1(point)
  {
    out := point;
    for z := 0 to |point|
      invariant |out| == |point|
      invariant forall w :: 0 <= w < z ==> out[w] == ConvertG1Entry(point[w])
      invariant forall w :: z <= w < |point| ==> out[w] == point[w]
    {
      out := out[z := ConvertG1Entry(out[z])];
    }
  }

  /** The IC loop: every coordinate of every point replaced by its big-endian bytes. */
  method ConvertIcRows(ic: seq<seq<Coord>>) returns (out: seq<seq<Coord>>)
    requires IcConvertible(ic)
    ensures out == ConvertedIc(ic)
  {
    out := ic;
    for j := 0 to |ic|
      invariant |out| == |ic|
      invariant forall k :: 0 <= k < j ==> out[k] == ConvertedG1(ic[k])
      invariant forall k :: j <= k < |ic| ==> out[k] == ic[k]
    {
      var point := ConvertG1Row(out[j]);
      out := out[j := point];
    }
  }

  /** The alphabeta loop, three levels deep. */
  method ConvertAlphabetaRows(v: seq<seq<seq<Coord>>>) returns (out: seq<seq<seq<Coord>>>)
    requires AlphabetaConvertible(v)
    ensures out == ConvertedAlphabeta(v)
  {
    out := v;
    for j := 0 to |v|
      invariant |out| == |v|
      invariant forall k :: 0 <= k < j ==> out[k] == ConvertedAlphabeta(v)[k]
      invariant forall k :: j <= k < |v| ==> out[k] == v[k]
    {
      var row := out[j];
      for z := 0 to |row|
        invariant |row| == |v[j]|
        invariant forall w :: 0 <= w < z ==> row[w] == ConvertedAlphabeta(v)[j][w]
        invariant forall w :: z <= w < |row| ==> row[w] == v[j][w]
      {
        var cell := row[z];
        for u := 0 to |cell|
          invariant |cell| == |v[j][z]|
          invariant forall t :: 0 <= t < u ==> cell[t] == ConvertAlphabetaEntry(v[j][z][t])
          invariant forall t :: u <= t < |cell| ==> cell[t] == v[j][z][t]
        {
          cell := cell[u := ConvertAlphabetaEntry(cell[u])];
        }
        row := row[z := cell];
      }
      out := out[j := row];
    }
  }

  // ---------------------------------------------------------------------
  // The Rust text.

  /** `Array.prototype.toString` on bytes: decimal numbers joined by ','. */
  function ByteList(b: seq<byte>): (r: string)
    ensures forall i :: 0 <= i < |r| ==> IsDigit(r[i]) || r[i] == ','
  {
    if |b| == 0 then ""
    else if |b| == 1 then NatToDecimal(b[0])
    else ByteList(b[..|b| - 1]) + "," + NatToDecimal(b[|b| - 1])
  }

  /** The index of the last ',' in s, or |s| when there is none. */
  function LastComma(s: string): (r: nat)
    ensures r <= |s|
    ensures r < |s| ==> s[r] == ',' && forall i :: r < i < |s| ==> s[i] != ','
    ensures r == |s| ==> forall i :: 0 <= i < |s| ==> s[i] != ','
  {
    if s == [] then 0
    else if s[|s| - 1] == ',' then |s| - 1
    else
      var k := LastComma(s[..|s| - 1]);
      if k == |s| - 1 then |s| else k
  }

  /** Reading a comma-separated list of decimal numbers: the partner of `ByteList`. */
  function ParseNumberList(s: string): seq<nat>
    requires forall i :: 0 <= i < |s| ==> IsDigit(s[i]) || s[i] == ','
    decreases |s|
  {
    var k := LastComma(s);
    if k == |s| then [DecimalValue(s)]
    else ParseNumberList(s[..k]) + [DecimalValue(s[k + 1..])]
  }

  lemma LastCommaOfJoin(p: string, q: string)
    requires forall i :: 0 <= i < |q| ==> q[i] != ','
    ensures LastComma(p + "," + q) == |p|
    decreases |q|
  {
    if q != [] {
      var s := p + "," + q;
      assert s[..|s| - 1] == p + "," + q[..|q| - 1];
      LastCommaOfJoin(p, q[..|q| - 1]);
    }
  }

  /** The emitted list of a non-empty buffer reads back as that buffer. */
  lemma {:induction false} ParseByteList(b: seq<byte>)
    requires |b| >= 1
    ensures ParseNumberList(ByteList(b)) == b
    decreases |b|
  {
    var d := NatToDecimal(b[|b| - 1]);
    if |b| == 1 {
      assert LastComma(d) == |d|;
    } else {
      var p := ByteList(b[..|b| - 1]);
      var s := p + "," + d;
      LastCommaOfJoin(p, d);
      assert s[..|p|] == p && s[|p| + 1..] == d;
      ParseByteList(b[..|b| - 1]);
      assert b[..|b| - 1] + [b[|b| - 1]] == b;
    }
  }

  /** One row of an array literal: indent, the bytes, ",\n". */
  function Row(indent: string, c: Coord): string
    requires c.Buf?
  {
    indent + ByteList(c.bytes) + ",\n"
  }

  /** The entries a `j < length - 1` loop visits: all but the last. */
  function DropLast<T>(s: seq<T>): (r: seq<T>)
    ensures |s| >= 1 ==> r == s[..|s| - 1]
    ensures |s| == 0 ==> r == []
  {
    if |s| == 0 then [] else s[..|s| - 1]
  }

  predicate AllBuf(entries: seq<Coord>)
  {
    forall i :: 0 <= i < |entries| ==> entries[i].Buf?
  }

  predicate PairsBuf(rows: seq<seq<Coord>>)
  {
    forall j :: 0 <= j < |rows| ==> |rows[j]| >= 2 && rows[j][0].Buf? && rows[j][1].Buf?
  }

  predicate IcBuf(ic: seq<seq<Coord>>)
  {
    forall j :: 0 <= j < |ic| ==> AllBuf(DropLast(ic[j]))
  }

  /** One row per G1 entry. */
  function G1Rows(indent: string, entries: seq<Coord>): string
    requires AllBuf(entries)
  {
    if entries == [] then ""
    else G1Rows(indent, entries[..|entries| - 1]) + Row(indent, entries[|entries| - 1])
  }

  /** Two rows (z = 0, 1) per G2 entry. */
  function G2Rows(rows: seq<seq<Coord>>): string
    requires PairsBuf(rows)
  {
    if rows == [] then ""
    else
      G2Rows(rows[..|rows| - 1]) + PairRows(rows[|rows| - 1], 2)
  }

  /** The rows `z = 0 .. n - 1` of one G2 entry. */
  function PairRows(row: seq<Coord>, n: nat): string
    requires n <= 2 && |row| >= 2 && row[0].Buf? && row[1].Buf?
  {
    if n == 0 then "" else PairRows(row, n - 1) + Row("\t\t", row[n - 1])
  }

  /** An opening line, rows, a closing line. */
  function Bracketed(open: string, rows: string, close: string): string
  {
    open + rows + close
  }

  /** One bracketed block per IC point, holding all its coordinates but the last. */
  function IcBlocks(ic: seq<seq<Coord>>): string
    requires IcBuf(ic)
  {
    if ic == [] then ""
    else IcBlocks(ic[..|ic| - 1]) + Bracketed("\t\t[\n", G1Rows("\t\t\t", DropLast(ic[|ic| - 1])), "\t\t],\n")
  }

  const Header: string := "use groth16_solana::groth16::Groth16Verifyingkey;\n\n"
    + "pub const VERIFYINGKEY: Groth16Verifyingkey = Groth16Verifyingkey {\n"

  /** The header and the `nr_pubinputs` field. */
  function Prelude(icCount: nat): string
  {
    Header + "\tnr_pubinputs: " + NatToDecimal(icCount) + ",\n\n"
  }

  predicate Emittable(alpha: seq<Coord>, beta: seq<seq<Coord>>, gamma: seq<seq<Coord>>,
                      delta: seq<seq<Coord>>, ic: seq<seq<Coord>>)
  {
    && AllBuf(DropLast(alpha)) && PairsBuf(DropLast(beta)) && PairsBuf(DropLast(gamma))
    && PairsBuf(DropLast(delta)) && IcBuf(ic)
  }

  /**
   * The whole `verifying_key.rs` text.  `nr_pubinputs` is the number of IC
   * points and the gamma field keeps the spelling `vk_gamme_g2`.
   */
  function RustSource(alpha: seq<Coord>, beta: seq<seq<Coord>>, gamma: seq<seq<Coord>>,
                      delta: seq<seq<Coord>>, ic: seq<seq<Coord>>): string
    requires Emittable(alpha, beta, gamma, delta, ic)
  {
    Prelude(|ic|)
    + Bracketed("\tvk_alpha_g1: [\n", G1Rows("\t\t", DropLast(alpha)), "\t],\n\n")
    + Bracketed("\tvk_beta_g2: [\n", G2Rows(DropLast(beta)), "\t],\n\n")
    + Bracketed("\tvk_gamme_g2: [\n", G2Rows(DropLast(gamma)), "\t],\n\n")
    + Bracketed("\tvk_delta_g2: [\n", G2Rows(DropLast(delta)), "\t],\n\n")
    + Bracketed("\tvk_ic: &[\n", IcBlocks(ic), "\t]\n};")
  }

  /** The text opens with the header and `nr_pubinputs`, the number of IC points. */
  lemma RustSourceStartsWithPrelude(alpha: seq<Coord>, beta: seq<seq<Coord>>, gamma: seq<seq<Coord>>,
                                    delta: seq<seq<Coord>>, ic: seq<seq<Coord>>)
    requires Emittable(alpha, beta, gamma, delta, ic)
    ensures var s := RustSource(alpha, beta, gamma, delta, ic);
            |Prelude(|ic|)| <= |s| && s[..|Prelude(|ic|)|] == Prelude(|ic|)
  {
    var p := Prelude(|ic|);
    var a := Bracketed("\tvk_alpha_g1: [\n", G1Rows("\t\t", DropLast(alpha)), "\t],\n\n");
    var b := Bracketed("\tvk_beta_g2: [\n", G2Rows(DropLast(beta)), "\t],\n\n");
    var c := Bracketed("\tvk_gamme_g2: [\n", G2Rows(DropLast(gamma)), "\t],\n\n");
    var d := Bracketed("\tvk_delta_g2: [\n", G2Rows(DropLast(delta)), "\t],\n\n");
    var e := Bracketed("\tvk_ic: &[\n", IcBlocks(ic), "\t]\n};");
    assert RustSource(alpha, beta, gamma, delta, ic) == p + a + b + c + d + e;
    PrefixOfSix(p, a, b, c, d, e);
  }

  lemma PrefixOfSix(p: string, a: string, b: string, c: string, d: string, e: string)
    ensures |p| <= |p + a + b + c + d + e| && (p + a + b + c + d + e)[..|p|] == p
  {
    assert p + a + b + c + d + e == p + (a + b + c + d + e);
  }

  lemma {:induction false} IcBlocksOnlyReadAllButLast(ic: seq<seq<Coord>>, ic': seq<seq<Coord>>)
    requires IcBuf(ic) && IcBuf(ic')
    requires |ic| == |ic'| && forall j :: 0 <= j < |ic| ==> DropLast(ic[j]) == DropLast(ic'[j])
    ensures IcBlocks(ic) == IcBlocks(ic')
    decreases |ic|
  {
    if ic != [] {
      IcBlocksOnlyReadAllButLast(ic[..|ic| - 1], ic'[..|ic'| - 1]);
    }
  }

  /**
   * The last entry of every list (the projective z of each point) is never
   * written: keys that differ only there give the same text.
   */
  lemma LastEntriesNotEmitted(
    alpha: seq<Coord>, beta: seq<seq<Coord>>, gamma: seq<seq<Coord>>, delta: seq<seq<Coord>>, ic: seq<seq<Coord>>,
    alpha': seq<Coord>, beta': seq<seq<Coord>>, gamma': seq<seq<Coord>>, delta': seq<seq<Coord>>, ic': seq<seq<Coord>>)
    requires Emittable(alpha, beta, gamma, delta, ic) && Emittable(alpha', beta', gamma', delta', ic')
    requires DropLast(alpha) == DropLast(alpha') && DropLast(beta) == DropLast(beta')
    requires DropLast(gamma) == DropLast(gamma') && DropLast(delta) == DropLast(delta')
    requires |ic| == |ic'| && forall j :: 0 <= j < |ic| ==> DropLast(ic[j]) == DropLast(ic'[j])
    ensures RustSource(alpha, beta, gamma, delta, ic) == RustSource(alpha', beta', gamma', delta', ic')
  {
    IcBlocksOnlyReadAllButLast(ic, ic');
  }

  /** `for (j = 0; j < entries.length - 1; j++) s += row(entries[j])`. */
  method AppendG1Rows(s0: string, indent: string, entries: seq<Coord>) returns (s: string)
    requires AllBuf(DropLast(entries))
    ensures s == s0 + G1Rows(indent, DropLast(entries))
  {
    var visited := DropLast(entries);
    s := s0;
    var j := 0;
    while j < |entries| - 1
      invariant 0 <= j <= |visited|
      invariant AllBuf(visited[..j])
      invariant s == s0 + G1Rows(indent, visited[..j])
    {
      s := s + Row(indent, entries[j]);
      assert visited[..j + 1][..j] == visited[..j];
      j := j + 1;
    }
    assert visited[..j] == visited;
  }

  /** `for (j = 0; j < rows.length - 1; j++) for (z = 0; z < 2; z++) s += row(rows[j][z])`. */
  method AppendG2Rows(s0: string, rows: seq<seq<Coord>>) returns (s: string)
    requires PairsBuf(DropLast(rows))
    ensures s == s0 + G2Rows(DropLast(rows))
  {
    var visited := DropLast(rows);
    s := s0;
    var j := 0;
    while j < |rows| - 1
      invariant 0 <= j <= |visited|
      invariant PairsBuf(visited[..j])
      invariant s == s0 + G2Rows(visited[..j])
    {
      ghost var before := s;
      for z := 0 to 2
        invariant s == before + PairRows(visited[j], z)
      {
        s := s + Row("\t\t", rows[j][z]);
        JoinAssoc(before, PairRows(visited[j], z), Row("\t\t", visited[j][z]));
      }
      assert visited[..j + 1][..j] == visited[..j];
      JoinAssoc(s0, G2Rows(visited[..j]), PairRows(visited[j], 2));
      j := j + 1;
    }
    assert visited[..j] == visited;
  }

  /** `for (const ic of mydata.IC)`: a bracketed block per point. */
  method AppendIcBlocks(s0: string, ic: seq<seq<Coord>>) returns (s: string)
    requires IcBuf(ic)
    ensures s == s0 + IcBlocks(ic)
  {
    s := s0;
    for k := 0 to |ic|
      invariant IcBuf(ic[..k])
      invariant s == s0 + IcBlocks(ic[..k])
    {
      ghost var before := s;
      s := AppendBracketed(s, "\t\t[\n", "\t\t\t", ic[k], "\t\t],\n");
      assert ic[..k + 1][..k] == ic[..k];
      JoinAssoc(s0, IcBlocks(ic[..k]), Bracketed("\t\t[\n", G1Rows("\t\t\t", DropLast(ic[k])), "\t\t],\n"));
    }
    assert ic[..|ic|] == ic;
  }

  lemma JoinAssoc(a: string, b: string, c: string)
    ensures a + b + c == a + (b + c)
  {
  }

  lemma BracketedAssoc(s0: string, open: string, rows: string, close: string)
    ensures s0 + open + rows + close == s0 + Bracketed(open, rows, close)
  {
  }

  /** `s += open`, the G1 rows loop, `s += close`. */
  method AppendBracketed(s0: string, open: string, indent: string, entries: seq<Coord>, close: string) returns (s: string)
    requires AllBuf(DropLast(entries))
    ensures s == s0 + Bracketed(open, G1Rows(indent, DropLast(entries)), close)
  {
    s := s0 + open;
    s := AppendG1Rows(s, indent, entries);
    s := s + close;
    BracketedAssoc(s0, open, G1Rows(indent, DropLast(entries)), close);
  }

  /** `s += open`, the G2 rows loop, `s += close`. */
  method AppendBracketedG2(s0: string, open: string, rows: seq<seq<Coord>>, close: string) returns (s: string)
    requires PairsBuf(DropLast(rows))
    ensures s == s0 + Bracketed(open, G2Rows(DropLast(rows)), close)
  {
    s := s0 + open;
    s := AppendG2Rows(s, rows);
    s := s + close;
    BracketedAssoc(s0, open, G2Rows(DropLast(rows)), close);
  }

  /** `s += "\tvk_ic: &[\n"`, the IC loop, `s += "\t]\n};"`. */
  method AppendBracketedIc(s0: string, ic: seq<seq<Coord>>) returns (s: string)
    requires IcBuf(ic)
    ensures s == s0 + Bracketed("\tvk_ic: &[\n", IcBlocks(ic), "\t]\n};")
  {
    s := s0 + "\tvk_ic: &[\n";
    s := AppendIcBlocks(s, ic);
    s := s + "\t]\n};";
    BracketedAssoc(s0, "\tvk_ic: &[\n", IcBlocks(ic), "\t]\n};");
  }

  // ---------------------------------------------------------------------
  // The key object and the script.

  /** `mydata`, the parsed key, whose coordinate lists the script overwrites in place. */
  class VerifyingKeyJson {
    var vkAlpha1: seq<Coord>
    var vkBeta2: seq<seq<Coord>>
    var vkGamma2: seq<seq<Coord>>
    var vkDelta2: seq<seq<Coord>>
    var vkAlphabeta12: seq<seq<seq<Coord>>>
    var ic: seq<seq<Coord>>

    constructor (alpha: seq<Coord>, beta: seq<seq<Coord>>, gamma: seq<seq<Coord>>,
                 delta: seq<seq<Coord>>, alphabeta: seq<seq<seq<Coord>>>, ic: seq<seq<Coord>>)
      ensures vkAlpha1 == alpha && vkBeta2 == beta && vkGamma2 == gamma && vkDelta2 == delta
      ensures vkAlphabeta12 == alphabeta && this.ic == ic
    {
      vkAlpha1, vkBeta2, vkGamma2, vkDelta2 := alpha, beta, gamma, delta;
      vkAlphabeta12, this.ic := alphabeta, ic;
    }

    /** Every coordinate the conversion touches is a number `leInt2Buff` accepts. */
    predicate Convertible()
      reads this
    {
      && G1Convertible(vkAlpha1) && G2RowsConvertible(vkBeta2) && G2RowsConvertible(vkGamma2)
      && G2RowsConvertible(vkDelta2) && AlphabetaConvertible(vkAlphabeta12) && IcConvertible(ic)
    }

    /** The loop over the key's entries: each key's list is replaced by its converted form. */
    method ConvertCoordinates()
      requires Convertible()
      modifies this
      ensures vkAlpha1 == ConvertedG1(old(vkAlpha1))
      ensures vkBeta2 == ConvertedG2(old(vkBeta2))
      ensures vkGamma2 == ConvertedG2(old(vkGamma2))
      ensures vkDelta2 == ConvertedG2(old(vkDelta2))
      ensures vkAlphabeta12 == ConvertedAlphabeta(old(vkAlphabeta12))
      ensures ic == ConvertedIc(old(ic))
    {
      var alpha := ConvertedG1(vkAlpha1);
      var beta := ConvertG2Rows(vkBeta2);
      var gamma := ConvertG2Rows(vkGamma2);
      var delta := ConvertG2Rows(vkDelta2);
      var alphabeta := ConvertAlphabetaRows(vkAlphabeta12);
      var points := ConvertIcRows(ic);
      vkAlpha1, vkBeta2, vkGamma2, vkDelta2 := alpha, beta, gamma, delta;
      vkAlphabeta12, ic := alphabeta, points;
    }

    /** Building `s` with `+=`: header, the four point lists, then the IC blocks. */
    method EmitRust() returns (s: string)
      requires Emittable(vkAlpha1, vkBeta2, vkGamma2, vkDelta2, ic)
      ensures s == RustSource(vkAlpha1, vkBeta2, vkGamma2, vkDelta2, ic)
    {
      s := Header;
      s := s + "\tnr_pubinputs: " + NatToDecimal(|ic|) + ",\n\n";
      s := AppendBracketed(s, "\tvk_alpha_g1: [\n", "\t\t", vkAlpha1, "\t],\n\n");
      s := AppendBracketedG2(s, "\tvk_beta_g2: [\n", vkBeta2, "\t],\n\n");
      s := AppendBracketedG2(s, "\tvk_gamme_g2: [\n", vkGamma2, "\t],\n\n");
      s := AppendBracketedG2(s, "\tvk_delta_g2: [\n", vkDelta2, "\t],\n\n");
      s := AppendBracketedIc(s, ic);
    }
  }

  /** `${outputPath}verifying_key.rs` and its contents. */
  datatype OutputFile = OutputFile(path: string, contents: string)

  /** `process.argv[2]` is missing or empty. */
  predicate InputPathMissing(argv: seq<string>)
  {
    |argv| < 3 || argv[2] == ""
  }

  /** `argv[3]` followed by '/', or nothing, then the file name. */
  function OutputPath(argv: seq<string>): string
  {
    (if |argv| >= 4 && argv[3] != "" then argv[3] + "/" else "") + "verifying_key.rs"
  }

  /** Converted coordinates are all bytes, so the emission loops can print them. */
  lemma ConvertedIsEmittable(alpha: seq<Coord>, beta: seq<seq<Coord>>, gamma: seq<seq<Coord>>,
                             delta: seq<seq<Coord>>, ic: seq<seq<Coord>>)
    requires G1Convertible(alpha) && G2RowsConvertible(beta) && G2RowsConvertible(gamma)
    requires G2RowsConvertible(delta) && IcConvertible(ic)
    ensures Emittable(ConvertedG1(alpha), ConvertedG2(beta), ConvertedG2(gamma), ConvertedG2(delta), ConvertedIc(ic))
  {
  }

  /**
   * `main`: stop with "inputPath not specified" before anything is read, or
   * convert the key read from the input path and produce the Rust file.
   * The file read and write are left to the caller: `key` is the parsed input.
   */
  method Run(argv: seq<string>, key: VerifyingKeyJson) returns (r: Result<OutputFile, string>)
    requires !InputPathMissing(argv) ==> key.Convertible()
    modifies key
    ensures InputPathMissing(argv) ==> r == Failure("inputPath not specified") && unchanged(key)
    ensures !InputPathMissing(argv) ==>
              && Emittable(ConvertedG1(old(key.vkAlpha1)), ConvertedG2(old(key.vkBeta2)),
                           ConvertedG2(old(key.vkGamma2)), ConvertedG2(old(key.vkDelta2)),
                           ConvertedIc(old(key.ic)))
              && r == Success(OutputFile(OutputPath(argv),
                RustSource(ConvertedG1(old(key.vkAlpha1)), ConvertedG2(old(key.vkBeta2)),
                           ConvertedG2(old(key.vkGamma2)), ConvertedG2(old(key.vkDelta2)),
                           ConvertedIc(old(key.ic)))))
  {
    if InputPathMissing(argv) {
      return Failure("inputPath not specified");
    }
    var outputPath := if |argv| >= 4 && argv[3] != "" then argv[3] + "/" else "";
    ConvertedIsEmittable(key.vkAlpha1, key.vkBeta2, key.vkGamma2, key.vkDelta2, key.ic);
    key.ConvertCoordinates();
    var s := key.EmitRust();
    return Success(OutputFile(outputPath + "verifying_key.rs", s));
  }
}
