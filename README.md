# zk-solana-experiments: the client-side proof wire adapter

This project models, in Dafny, the code that turns a snarkjs Groth16 proof over
BN254 into the byte buffers Solana's alt_bn128 syscalls consume, and the small
encoders around it:

- `convert_endianness_vec` (wasm/src/utils.rs): reverse every whole chunk of a
  byte slice, keeping chunk order, dropping a trailing partial chunk.
- `PreparedProof` (wasm/src/proofs.rs): a 256-byte buffer and three setters that
  build -A, B and C as big-endian 32-byte limbs (B with the imaginary
  coefficient of each F_q2 coordinate first) and splice them into
  [0, 64), [64, 192) and [192, 256).
- `prepare_g1_point` and `prepare_proofs` (wasm/src/lib.rs): decimal parsing,
  range checks, error results, ark's uncompressed point serialisation with its
  y-sign flag, and the order in which the setters run.
- `bigIntToLeUint8Array` and `explorerUrl` (utils/helpers.ts).
- `proofToUint8Array` and `to32ByteBuffer` (utils/zk.ts): the little-endian
  TypeScript proof layout and the padded-hex big-endian encoder.
- `unstringifyBigInts` (utils/ff.ts): recursive string-to-BigInt conversion.
- `public_input!` / `make_input` (programs/zk-factor/src/macros.rs).
- vk_to_rs.ts: the in-place coordinate conversion of a verifying key and the
  Rust source text it emits.

Field elements are naturals below the BN254 base modulus q; negation is
y -> (q - y) mod q; "on the curve" is the curve equation, used as a
precondition wherever the source would panic off the curve.

Modules: `Wrappers` (Option, Result), `Bytes` (little- and big-endian reference
encodings, in-place array overwrite), `Text` (decimal and hexadecimal digits,
the num-bigint decimal grammar), `Bn254` (q, negation, curve equations),
`Endianness` (utils.rs), `Proofs` (proofs.rs), `WasmLib` (lib.rs), `Helpers`
(helpers.ts), `Zk` (zk.ts), `Ff` (ff.ts), `Macros` (macros.rs), `VkToRs`
(vk_to_rs.ts).

Behaviour of the code worth knowing, which the model follows:

- `convert_endianness_vec` drops a trailing partial chunk (`chunks_exact`).
- The doc comment of `prepare_proofs` (wasm/src/lib.rs:48) says both
  coordinates of A are negated; `set_proof_a` negates the point, which changes
  only y. The model negates y only.
- `to32ByteBuffer` returns 32 bytes holding n / 16 for every n with 65
  hexadecimal digits (2^256 <= n < 2^260), because Node's hex decoder drops an
  odd final digit. Only from 2^260 on is the buffer longer than 32 bytes.
- `prepare_g1_point` writes ark's `serialize_uncompressed` encoding, which
  sets bit 7 of byte 63 when y is larger than -y (about half of all points),
  so its bytes are the plain little-endian limbs `set_proof_c` starts from
  only when that flag is clear. The point (1, q - 2) is an example: byte 63 is
  0xb0, where the limb of q - 2 ends in 0x30.

## Model

| member | source | states |
|---|---|---|
| Endianness.ConvertEndianness | wasm/src/utils.rs:1-6 | chunk size must be positive; the output has length (len / k) * k |
| Endianness.ConvertEndiannessAt | wasm/src/utils.rs:3-4 | output byte i*k + j of a whole chunk i is input byte i*k + (k-1-j) |
| Endianness.ChunkReversed | wasm/src/utils.rs:3-4 | chunk i of the output is chunk i of the input reversed: chunk order is kept |
| Endianness.PartialChunkDropped | wasm/src/utils.rs:3 | a trailing partial chunk is ignored: the result equals that of the whole-chunk prefix |
| Endianness.ConvertInvolution | wasm/src/utils.rs:1-6 | when the length is a multiple of k, converting twice gives the input back |
| Endianness.ConvertChunkOneIsIdentity | wasm/src/utils.rs:3-4 | chunk size 1 is the identity |
| Endianness.ConvertWholeIsReverse | wasm/src/utils.rs:3-4 | chunk size = length is a full reversal |
| Endianness.ConvertAppend | wasm/src/utils.rs:3-4 | converting a+b with a whole chunks converts a and b separately |
| Endianness.Chunk32ThenSwapIsChunk64 | wasm/src/proofs.rs:71-79 | 32-byte conversion followed by swapping the limbs of each half equals one 64-byte-chunk conversion |
| Proofs.PreparedProof.constructor | wasm/src/proofs.rs:28-34 | raw is a fresh array of 256 zero bytes; proof_a, proof_b, proof_c are empty |
| Proofs.PreparedProof.SetProofA | wasm/src/proofs.rs:37-50 | proof_a = BE32(x) ++ BE32((q - y) mod q) of the reduced coordinates; raw changes only in [0, 64), which now holds proof_a; the other parts are unchanged |
| Proofs.PreparedProof.SetProofB | wasm/src/proofs.rs:52-83 | proof_b = BE32(x.c1) ++ BE32(x.c0) ++ BE32(y.c1) ++ BE32(y.c0) for x = (x0, y0), y = (x1, y1); raw changes only in [64, 192) |
| Proofs.PreparedProof.SetProofC | wasm/src/proofs.rs:85-98 | proof_c = BE32(x) ++ BE32(y), no negation; raw changes only in [192, 256) |
| Proofs.SwapGivesImaginaryFirst | wasm/src/proofs.rs:63-79 | the little-endian limbs converted 32 bytes at a time and swapped pairwise are the c1-first big-endian G2 layout |
| Proofs.LimbsToBe | wasm/src/proofs.rs:40-46 | converting two little-endian limbs 32 bytes at a time gives the two big-endian limbs |
| Proofs.SplicesCommute | wasm/src/proofs.rs:44-97 | splices into disjoint ranges commute, so the setters' order does not affect raw |
| Proofs.SettersTileBuffer | wasm/src/proofs.rs:33-97 | splicing A at 0, C at 192 and B at 64 into any 256-byte buffer leaves exactly A ++ B ++ C |
| Proofs.CanonicalProofRoundTrip | wasm/src/proofs.rs:267-319 | reading the 256 bytes back gives (-A, B, C) and negating the decoded A restores A |
| Text.ParseDecimalRoundTrip | wasm/src/lib.rs:57-70 | the decimal text of n parses back as n with `BigUint::from_str`'s grammar |
| Text.ParseBigUintAccepts | wasm/src/lib.rs:57-70 | a successful parse means an optional single '+', a leading digit, then digits and '_' only |
| Bn254.FromBigUint | wasm/src/proofs.rs:38-86 | the field element is in [0, q) and congruent to the integer mod q |
| Bn254.Neg | wasm/src/proofs.rs:38 | the negation is in [0, q) and adds up with y to a multiple of q |
| WasmLib.ParseBigInt256 | wasm/src/lib.rs:16-19 | succeeds exactly when the decimal text parses and its value is below 2^256, with that value |
| WasmLib.SerializeUncompressed | wasm/src/lib.rs:26-31 | 64 bytes: the first little-endian half reads as x, the second reads as y below bit 255 and has bit 255 set exactly when y is negative (y > -y) |
| WasmLib.FlaggedYBits | wasm/src/lib.rs:29-31 | the flagged y fits in 32 bytes, y is its remainder below the flag bit, and the flag bit is set exactly when y is negative |
| WasmLib.PrepareG1Point | wasm/src/lib.rs:13-37 | succeeds iff both strings parse and both values are below q; otherwise "Failed to parse x coordinate", "Failed to parse y coordinate" or "Failed to parse x or y coordinate" in that order of checks; success is 64 bytes whose first half reads as x and whose second half reads as y plus the sign flag in bit 255 |
| WasmLib.PrepareG1PointSignByte | wasm/src/lib.rs:26-31 | on success, byte 63 is at least 128 exactly when y is negative: the flag is bit 7 of the last byte |
| WasmLib.PrepareG1PointOfDecimals | wasm/src/lib.rs:13-37 | the decimal text of an on-curve point's coordinates is accepted and encodes x and, below the flag bit, y |
| WasmLib.PrepareG1PointIsLeProofC | wasm/src/lib.rs:26-33 | the bytes of prepare_g1_point, converted 32 bytes at a time, are the proof_c layout of the same point exactly when y is not negative |
| WasmLib.FlaggedPointExample | wasm/src/lib.rs:26-31 | for (1, q - 2), an on-curve point with negative y, byte 63 is 0xb0 while the plain limb of q - 2 ends in 0x30 |
| WasmLib.PreparedRaw | wasm/src/lib.rs:51-79 | defined iff all eight coordinate strings parse; then 256 bytes decoding to (-A, B, C) |
| WasmLib.OnlyEightCoordinatesRead | wasm/src/lib.rs:57-70 | proofs agreeing on pi_a[0..2], pi_c[0..2], pi_b[0][0..2], pi_b[1][0..2] give the same buffer |
| WasmLib.PrepareProofs | wasm/src/lib.rs:51-80 | fails with null exactly when a coordinate does not parse; otherwise a fresh PreparedProof whose raw is the 256-byte layout and whose parts are -A, B and C |
| Helpers.ExplorerUrl | utils/helpers.ts:53-55 | the link is the fixed prefix, then tx, then "?cluster=", then the cluster, with lengths adding up |
| Helpers.ExplorerUrlInjective | utils/helpers.ts:53-55 | for transaction ids without '?', equal links mean equal transaction and cluster |
| Helpers.ExplorerUrlAmbiguous | utils/helpers.ts:53-55 | with a '?' in the transaction id, two different argument pairs give the same link |
| Helpers.BigIntToLeUint8Array | utils/helpers.ts:60-70 | a fresh array of exactly byteLength bytes holding LeBytes(n, byteLength) |
| Bytes.LeBytesAt | utils/helpers.ts:64-67 | byte i of the little-endian encoding is floor(n / 256^i) mod 256 |
| Bytes.LeRoundTrip | utils/helpers.ts:60-70 | below 256^len, the little-endian bytes read back as n |
| Bytes.LeBytesMod | utils/helpers.ts:64-67 | bytes above len are dropped: n and n mod 256^len encode the same |
| Bytes.BeIsReversedLe | utils/zk.ts:62-66 | the big-endian encoding is the reversed little-endian one |
| Bytes.Overwrite | wasm/src/proofs.rs:44-97 | the array afterwards is the old contents with the given range replaced by the bytes |
| Zk.ProofToUint8Array | utils/zk.ts:8-41 | fresh arrays proofA = LE32(a0) ++ LE32(a1), proofB = LE32(b00) ++ LE32(b10) ++ LE32(b01) ++ LE32(b11), proofC = LE32(c0) ++ LE32(c1) |
| Zk.G1ToUint8Array | utils/zk.ts:10-16 | the two .set calls fill a fresh 64-byte array with LE32(x) ++ LE32(y) |
| Zk.G2ToUint8Array | utils/zk.ts:20-30 | the four .set calls fill a fresh 128-byte array in the order b00, b10, b01, b11 |
| Zk.LeG1RoundTrip | utils/zk.ts:10-16 | each half of the 64 bytes reads back as its coordinate modulo 2^256 |
| Zk.LeProofCMatchesRust | utils/zk.ts:32-38 | proofC and the Rust proof_c convert into each other 32 bytes at a time |
| Zk.LeProofAIsNotNegated | utils/zk.ts:10-16 | proofA converted is A itself and differs from the Rust proof_a whenever y != 0 |
| Zk.LeProofBOrder | utils/zk.ts:20-30 | proofB converted holds the same limbs as the Rust proof_b in a different order |
| Zk.PadStart | utils/zk.ts:63 | padStart pads on the left with the fill character and never truncates |
| Zk.HexDecode | utils/zk.ts:64 | one byte per pair of hex digits: the result has half as many bytes as digits, rounded down |
| Zk.To32ByteBuffer | utils/zk.ts:62-66 | the buffer has 32 bytes, or half the digit count of n's hex text when that exceeds 64 |
| Zk.BeValueOfHexDecode | utils/zk.ts:64 | an even number of hex digits decodes to bytes of the same big-endian value |
| Zk.To32ByteBufferValue | utils/zk.ts:62-66 | the result is the big-endian encoding of n (or n / 16 when the padded text has an odd length) in half as many bytes as digits |
| Zk.To32ByteBufferInRange | utils/zk.ts:62-66 | for n < 2^256 the result is BE32(n), the reverse of bigIntToLeUint8Array(n, 32) |
| Zk.To32ByteBufferOf65Digits | utils/zk.ts:62-66 | every n with 65 hex digits (16^64 <= n < 16^65) gives 32 bytes holding n / 16: the odd last digit is lost |
| Zk.To32ByteBufferOfTwoTo256 | utils/zk.ts:62-66 | 2^256 gives 32 bytes holding 2^252: the odd last digit is lost |
| Zk.To32ByteBufferLong | utils/zk.ts:62-66 | from 16^65 on the result is longer than 32 bytes |
| Ff.Unstringify | utils/ff.ts:17-41 | decimal strings become their value, "0x" hex strings their hex value, other strings and non-string scalars stay, arrays map element-wise with the same length, objects keep their keys in order |
| Ff.LiteralFormsDisjoint | utils/ff.ts:20 | no string is both a decimal and a hex literal |
| Ff.UnstringifySettles | utils/ff.ts:17-41 | a converted value contains no string that would be converted again |
| Ff.UnstringifyIdempotent | utils/ff.ts:17-41 | converting twice equals converting once |
| Ff.UnstringifyLeavesNonLiterals | utils/ff.ts:24 | "", "0x", "-5", "1.5" and "0xg" stay strings |
| Macros.MakeInput | programs/zk-factor/src/macros.rs:3-15 | size <= 32; one 32-byte array whose first 32 - size bytes are zero and byte 32 - size + i is (num >> 8(size-1-i)) & 0xff |
| Macros.MakeInputInRange | programs/zk-factor/src/macros.rs:3-15 | for num < 256^size the array is the 32-byte big-endian encoding of num |
| Macros.MakeInputDropsHighBytes | programs/zk-factor/src/macros.rs:9 | only num mod 256^size is written |
| Bn254.NegInvolution | wasm/src/proofs.rs:38 | negating twice restores the coordinate |
| Bn254.NegOnCurve | wasm/src/proofs.rs:38 | the negated point is on the curve when the point is |
| VkToRs.ConvertG1Entry | vk_to_rs.ts:31-33 | leInt2Buff(n, 32) reversed is BE32(n) |
| VkToRs.G1EntryRoundTrip | vk_to_rs.ts:89-92 | the converted bytes read back big-endian as the coordinate |
| VkToRs.ConvertG2Entry | vk_to_rs.ts:39-48 | a pair [c0, c1, ...] becomes [BE32(c1), BE32(c0), ...] of the same length |
| VkToRs.G2RowsMatchProofB | vk_to_rs.ts:54-63 | the converted G2 rows are exactly the Rust proof_b layout of the same point |
| VkToRs.MinByteLen | vk_to_rs.ts:74-76 | leInt2Buff without a length uses the fewest bytes (at least one) that hold n |
| VkToRs.ConvertAlphabetaEntry | vk_to_rs.ts:74-76 | alphabeta entries become minimal-length little-endian bytes reading back as the value |
| VkToRs.ConvertG2Rows | vk_to_rs.ts:37-49 | the loop replaces every row by its converted form |
| VkToRs.ConvertG1Row | vk_to_rs.ts:88-93 | the inner IC loop replaces every coordinate by its big-endian bytes |
| VkToRs.ConvertIcRows | vk_to_rs.ts:86-95 | the IC loops convert every coordinate of every point |
| VkToRs.ConvertAlphabetaRows | vk_to_rs.ts:69-81 | the three nested loops convert every alphabeta entry |
| VkToRs.VerifyingKeyJson.ConvertCoordinates | vk_to_rs.ts:27-98 | each key's list is replaced by its converted form; alphabeta is converted too |
| VkToRs.ParseByteList | vk_to_rs.ts:109 | the comma-joined decimal bytes of a non-empty buffer read back as that buffer |
| VkToRs.AppendG1Rows | vk_to_rs.ts:107-110 | the loop appends one row per entry except the last |
| VkToRs.AppendG2Rows | vk_to_rs.ts:115-119 | the loops append two rows per entry except the last |
| VkToRs.AppendIcBlocks | vk_to_rs.ts:142-149 | one bracketed block per IC point, each without its last coordinate |
| VkToRs.VerifyingKeyJson.EmitRust | vk_to_rs.ts:101-150 | the accumulated string is the whole Rust source: header, nr_pubinputs, vk_alpha_g1, vk_beta_g2, vk_gamme_g2, vk_delta_g2, vk_ic |
| VkToRs.RustSourceStartsWithPrelude | vk_to_rs.ts:101-103 | the text opens with the header and nr_pubinputs = IC.length |
| VkToRs.LastEntriesNotEmitted | vk_to_rs.ts:105-147 | keys that differ only in the last entry of each list give the same text |
| VkToRs.Run | vk_to_rs.ts:9-155 | a missing or empty input path fails with "inputPath not specified" and changes nothing; otherwise the file is `<dir>/verifying_key.rs` (or `verifying_key.rs`) with the text of the converted key, which does not involve alphabeta |

## Left out

- JavaScript's `BigInt(string)` parsing is not modelled: the TypeScript encoders
  (`bigIntToLeUint8Array`, `proofToUint8Array`, `to32ByteBuffer`) take the
  integer value, and vk_to_rs.ts coordinates are given as the numbers
  `unstringifyBigInts` yields.
- ark-bn254 internals are abstracted: `BigUint -> Fq` is reduction mod q,
  `into_bigint().to_bytes_le()` is 32 little-endian bytes,
  `serialize_uncompressed` is the ark 0.4 layout (x, then y with the sign flag
  in bit 7 of its last byte; the infinity flag never arises because
  `G1Affine::new` builds a finite point), and the G2 subgroup
  check in `G2Affine::new` is left out (only the curve equation is required).
- WasmLib.PrepareG1Point: the "Failed to serialize g1 point" error (wasm/src/lib.rs:31) is not modelled; writing into a `Vec` does not fail.
- WasmLib.PrepareProofs: requires the coordinate lists to have their slots, where the source would panic on a short list; a panic is not a modelled outcome.
- WasmLib.PrepareProofs: the serde deserialisation error path and the final `try_into` (wasm/src/lib.rs:54-55, 79; wasm/src/proofs.rs:101-107) are glue and not modelled.
- Zk.ProofToUint8Array: requires the coordinate lists to have their slots, where JavaScript would pass `undefined` to `BigInt` and throw.
- Zk.To32ByteBuffer: negative inputs are not modelled (`toString(16)` gives a '-' that Node's hex decoder stops at).
- Macros.MakeInput: the Rust integer type of `num` and shifts past its width are not modelled; `num` is a natural.
- VkToRs.Run: the file read, JSON parsing, console output, the file write and the `Array.isArray` guards are left out; the key is given already parsed with the documented shapes.
- VkToRs.ConvertG1Entry: requires coordinates below 2^256, where `leInt2Buff` would throw.
- The Groth16 verifier, `VERIFYINGKEY` and `PUBLIC_INPUT` (wasm/src/lib.rs:84-115) are not part of this model: their source is not available here.
- The test at wasm/src/proofs.rs:183-192 is not used: it reads the big-endian proof_b with a little-endian deserialiser, against the test at wasm/src/proofs.rs:291-319.
- `console_error_panic_hook`, the pino logger (utils/helpers.ts:1-51), `g1Uncompressed`/`g2Uncompressed` (utils/zk.ts:43-60), utils/keypair.ts, main.ts, generate-clients.ts and the Anchor program files are I/O, logging or thin library wrappers and are not modelled.
