# Bolt handshake byte codec

A Dafny model of the big-endian byte codec of buffersandbeer/neo4j-rust-driver.
The codec builds the handshake that opens a Bolt connection. The driver has two
parallel implementations:

- `src/bolt/packer.rs` works on fixed sizes. `u32_to_u8_be` and `u8_to_u32_be`
  convert between a u32 and four bytes. `pack_handshake` lays out the 20-byte
  handshake: a preamble, then four candidate protocol versions.
- `src/util/packer.rs` works on variable lengths. `pack_u32_to_u8` turns a slice
  of u32 into 4 bytes per word. `unpack_u8_to_u32` turns a byte slice into a u32
  and fails unless the slice has exactly four bytes.

Files:

- `integers.dfy` (module `Integers`) holds the Rust `u8` and `u32` types as
  `int` newtypes. Any `+` or `*` done in `u32` must be proved to stay below
  2^32, which is the overflow a debug build of Rust panics on. The module also
  holds `ShiftMask` for Rust's `(v >> shift) & 0xff`, written as
  `(v / 2^shift) % 256`. The reference definition `BigEndianValue` reads a byte
  sequence as base-256 digits, most significant first.
- `bolt_packer.dfy` (module `BoltPacker`) models the fixed-size codec.
  `U32ToU8Be` and `U8ToU32Be` are functions. `PackHandshake` is a method that
  fills a zeroed 20-byte array in the source's `for idx in 0..4` loop. It is
  proved equal to the functional layout `HandshakeLayout`.
- `util_packer.dfy` (module `UtilPacker`) models the variable-length codec.
  `PackU32ToU8` is a method that fills a zeroed array of `4 * n` bytes one
  block per iteration. It is proved equal to the functional `Packed`.
  `UnpackU8ToU32` returns `Ok` or an opaque `Err`.

Both packers are checked against `BigEndianValue`. They are also proved to
agree with each other: per word, on unpacking, and on the whole 20-byte
handshake.

Rust's fixed arrays `[u8; 4]` and `[u32; 4]` are modelled as sequences, with a
`requires` on their length. The `[u8; 20]` and `Vec<u8>` results are the
sequence of the filled array.

## Model

| member | source | states |
|---|---|---|
| `BoltPacker.U32ToU8Be` | src/bolt/packer.rs:8-13 | Exactly four bytes whose big-endian value is `value`, so the most significant byte comes first; every byte is below 256 by its type |
| `BoltPacker.U8ToU32Be` | src/bolt/packer.rs:22-27 | The result is the big-endian value of the four bytes. The sum is formed in u32, so every partial sum of the `+` chain is proved below 2^32 and the additions cannot overflow |
| `BoltPacker.RoundTrip` | src/bolt/packer.rs:8-27 | Decoding the encoding of any u32 gives it back |
| `BoltPacker.ReverseRoundTrip` | src/bolt/packer.rs:8-27 | Encoding the decoding of any four bytes gives the same four bytes back |
| `BoltPacker.HandshakeLayout` | src/bolt/packer.rs:36 | The handshake buffer is exactly 20 bytes long |
| `BoltPacker.PackHandshake` | src/bolt/packer.rs:36-51 | The loop over a zeroed 20-byte buffer yields exactly the preamble's four bytes followed by those of the four versions in order. The loop invariant says that after iteration `idx`, byte `j < idx` of each of the five slots holds byte `j` of its word |
| `BoltPacker.HandshakeSlots` | src/bolt/packer.rs:36-50 | Bytes 0..4 of the handshake are the encoding of the preamble and bytes 4+4k..8+4k are that of version k; each slot decodes back to its word |
| `BoltPacker.HandshakeVector` | src/bolt/packer.rs:57-66 | Preamble 0x6060b017 with versions [1, 0, 0, 0] gives `60 60 b0 17 00 00 00 01` followed by twelve zero bytes |
| `BoltPacker.DecodeVector` | src/bolt/packer.rs:70-76 | `[1, 2, 3, 4]` decodes to 0x01020304 |
| `BoltPacker.EncodeVector` | src/bolt/packer.rs:79-84 | 0x01020304 encodes to `[1, 2, 3, 4]` |
| `UtilPacker.Packed` | src/util/packer.rs:16-18 | The packed bytes number exactly four per payload word, so an empty payload packs to nothing |
| `UtilPacker.PackedAppend` | src/util/packer.rs:20-25 | Packing a concatenation of payloads is the concatenation of their packings |
| `UtilPacker.PackedBlock` | src/util/packer.rs:20-25 | Bytes 4·idx..4·idx+4 of the packing are the big-endian bytes of word idx, most significant first |
| `UtilPacker.PackU32ToU8` | src/util/packer.rs:14-28 | The loop over a zeroed vector of 4·n bytes yields exactly `Packed(payload)`, of length 4·n, with block idx holding the big-endian bytes of word idx. The loop invariant says the first idx blocks are the packing of the first idx words, so each iteration leaves earlier blocks as they were |
| `UtilPacker.UnpackU8ToU32` | src/util/packer.rs:41-55 | `Err` exactly when the input is not four bytes long (so no index is out of bounds); otherwise `Ok` of the big-endian value. The sum is formed in u32 and is proved never to overflow |
| `UtilPacker.UnpackPackedBlock` | src/util/packer.rs:14-55 | Unpacking block idx of a packed payload gives `Ok(payload[idx])` |
| `UtilPacker.PackUnpacked` | src/util/packer.rs:14-55 | Any four bytes that unpack to v are exactly the packing of `[v]` |
| `UtilPacker.PackedInjective` | src/util/packer.rs:14-28 | Two payloads with the same packing are equal, so packing loses no information |
| `UtilPacker.UnpackAgreesWithBolt` | src/util/packer.rs:49-52 | On four bytes, `unpack_u8_to_u32` returns `Ok` of what `u8_to_u32_be` returns |
| `UtilPacker.PackedHandshake` | src/util/packer.rs:14-28 | Packing `[preamble, v0, v1, v2, v3]` the way the commented-out connector does (src/bolt/mod.rs lines 23-24) gives the same 20 bytes as `pack_handshake(preamble, [v0, v1, v2, v3])` |
| `UtilPacker.PackVector` | src/util/packer.rs:61-67 | `[1, 2]` packs to `[0, 0, 0, 1, 0, 0, 0, 2]` |
| `UtilPacker.UnpackVectors` | src/util/packer.rs:69-77 | `[1, 2, 3, 4]` unpacks to `Ok(0x01020304)`; three or five bytes give `Err` |

## Left out

- The connection logic in `src/bolt/mod.rs` is left out. Everything after
  `pub mod packer;` is commented out, and what it describes is TCP I/O: connect,
  write the 20 bytes, check the count written, and read the 4-byte reply. Only
  the handshake bytes it would send are modelled, by `UtilPacker.PackedHandshake`.
- Version agreement is not modelled. The code reads the server's 4-byte reply,
  but never decodes or checks it. No "unsupported version" rejection exists to
  model, and none is invented here.
- The typed errors (transport, handshake, unsupported, length) are not modelled.
  The code has only a `String` error in `unpack_u8_to_u32`, modelled as an
  opaque `Err`. The text of that message is left out. It says "Not enough
  bytes" even when the input is too long.
- `src/errors.rs` (`PackingError`) is left out. It is a string wrapper with
  formatting impls, has no logic, and neither packer uses it.
- `Vec::with_capacity` in `pack_u32_to_u8` is left out. Its result is replaced
  by the zeroed vector on the next line, and capacity is not observable.
- `BoltPacker.U8ToU32Be` and `UtilPacker.UnpackU8ToU32` write Rust's
  `(b as u32) << k` as a multiplication by 2^k inside u32. Rust's `<<` would
  silently drop high bits, but the model proves that none are dropped, since
  every byte is below 256.
