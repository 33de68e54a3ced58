# McServer protocol core in Dafny

This project models the protocol core of a Minecraft-compatible server:

- **Block positions** (`BlockPosition`, `position.dfy`). A position's three coordinates are packed into one signed 64-bit word: X in bits 38..63, Z in bits 12..37 and Y in bits 0..11. The word goes on the wire as an `i64`. Decoding takes each field back out with shifts that sign-extend it.
  - The Rust operators the codec applies to `i64` are modelled on the word's two's-complement bit pattern: `&`, `|`, wrapping `<<`, arithmetic `>>` and the saturating `f64 as i64` cast (`Int64`, `int64.dfy`).
  - The `i64` wire form is eight big-endian bytes (`LongCodec`).
- **The protocol-version catalogue** (`ProtocolVersions`). There are thirteen releases, each tagged with a protocol version number from 757 to 769. Equality and ordering compare those numbers only. The default is the newest release.
- **The client session** (`ClientSession.Client`). This is a class whose fields the operations update in place:
  - the connection state;
  - the negotiated protocol version, which is absent until the handshake sets it and read as the default meanwhile;
  - the game profile;
  - a read-only packet identity map (`Packets.PacketMap`).

  Incoming frames are resolved to packet names for the current version, the current state and the server-bound direction. Outgoing packets get their id for the current version and are dropped when they have none. Keep-alives go out only in `Play`.
- **The chunk-data-and-light packet** (`ChunkDataAndUpdateLight`):
  - its default value, an empty column at chunk (0, 0);
  - the block-entity encoder, which writes nothing;
  - the light-array encoder, which writes a VarInt length and then each `i8` as a `u8`.

  The VarInt is modelled in `VarInt`: LEB128 of the value's unsigned 32-bit pattern, read back from at most five bytes.
- **The NBT field adapter** (`NbtField`). It appends the blob's own serialization to the buffer verbatim, with no length prefix, and always reports success.

`Light::encode`, `BlockEntity::encode` and the NBT adapter are methods on a `Bytes.ByteBuffer` object that holds the caller's `Vec<u8>`. The position and `i64` encoders are pure: they are functions that return the extended byte sequence. Decoders over immutable input are functions too.

A connection's life is meant to run forward through `Handshake`, `Login`, `Configuration` and `Play`, and its game profile is meant to be set once, after login. The code enforces neither expectation: `update_state` and `set_game_profile` in `server/src/server/client.rs` overwrite their field unconditionally. The model follows the code: `UpdateState` accepts any state, and `SetGameProfile` may be called repeatedly.

Several pieces are not part of this model but are needed at their boundary. They are stated as assumptions:
- The `i64` serializer is taken to be eight big-endian bytes of the two's-complement pattern, failing with `NotEnoughBytes` when fewer than eight bytes remain.
- `VarInt` is the wire protocol's LEB128 form of a 32-bit value.
- The packet map is any pair of lookup functions.
- `Nbt::to_bytes` and the encoding of a sequence of chunk sections are function parameters.
- `BitSet::default()` is taken to be a bit set with no words.
- `State::default()` is taken to be `Handshake`.

## Model

| member | source | states |
|---|---|---|
| `Int64.SaturatingCast` | protocol/protocol/src/data_types/position.rs:33-35 | `c as i64` gives the `i64` nearest to `c`: no other `i64` is closer, so in-range values are kept and others clamp to the minimum or maximum |
| `Int64.And` | protocol/protocol/src/data_types/position.rs:33-35 | `a & b` with a non-negative operand lies between 0 and that operand |
| `Int64.AndLowMask` | protocol/protocol/src/data_types/position.rs:33-35 | `v & (2^k - 1)` is `v` modulo 2^k, negative `v` included, so the masks keep the low 26 or 12 bits of the field |
| `Int64.Shl` | protocol/protocol/src/data_types/position.rs:33-34 | `a << k` leaves the low k bits of the result clear; the encoder shifts by 38 and 12, and the decoder's shifts are stated by `Int64.ShlPattern` |
| `Int64.ShlPattern` | protocol/protocol/src/data_types/position.rs:23-24 | `w << k` keeps the low 64 - k bits of `w` and moves them up by k, losing the bits shifted out |
| `Int64.Or` | protocol/protocol/src/data_types/position.rs:33-35 | `a \| b`, read unsigned, is at least each operand and at most their sum |
| `Int64.OrDisjoint` | protocol/protocol/src/data_types/position.rs:33-35 | or-ing a value whose low k bits are clear with a value below 2^k is their sum |
| `Int64.Sar` | protocol/protocol/src/data_types/position.rs:22-24 | `a >> k` is the floor of a / 2^k: the result times 2^k is at most `a`, and `a` is less than that plus 2^k |
| `BlockPosition.MaskedFields` | protocol/protocol/src/data_types/position.rs:33-35 | `& 0x3FFFFFF` and `& 0xFFF` reduce a coordinate modulo 2^26 and 2^12 |
| `BlockPosition.Pack` | protocol/protocol/src/data_types/position.rs:33-35 | the encoded word, read unsigned, is X·2^38 + Z·2^12 + Y of the saturated coordinates' low bits, so the fields do not overlap |
| `BlockPosition.PackLayout` | protocol/protocol/src/data_types/position.rs:32-37 | the encoded word holds X's low 26 bits in bits 38..63, Z's low 26 bits in bits 12..37 and Y's low 12 bits in bits 0..11 |
| `BlockPosition.Encode` | protocol/protocol/src/data_types/position.rs:32-37 | encoding appends exactly eight bytes and leaves the bytes already in the buffer untouched |
| `BlockPosition.Unpack` | protocol/protocol/src/data_types/position.rs:22-24 | the decoded position is bits 38..63, 0..11 and 12..37 of the word, each read as a signed number of its width |
| `BlockPosition.Decode` | protocol/protocol/src/data_types/position.rs:20-26 | decoding succeeds exactly when eight bytes remain at the cursor, and then advances the cursor by eight |
| `BlockPosition.DecodeX` | protocol/protocol/src/data_types/position.rs:22 | `val >> 38` is bits 38..63 read as a signed 26-bit number |
| `BlockPosition.DecodeY` | protocol/protocol/src/data_types/position.rs:23 | `val << 52 >> 52` is bits 0..11 read as a signed 12-bit number |
| `BlockPosition.DecodeZ` | protocol/protocol/src/data_types/position.rs:24 | `val << 26 >> 38` is bits 12..37 read as a signed 26-bit number |
| `BlockPosition.UnpackPack` | protocol/protocol/src/data_types/position.rs:20-37 | for every position, decode after encode gives each saturated coordinate reduced to its field width and sign-extended; out-of-range coordinates wrap and nothing is rejected |
| `BlockPosition.UnpackInRange` | protocol/protocol/src/data_types/position.rs:20-26 | every decoded position lies within the signed field ranges, so it re-encodes and decodes unchanged |
| `BlockPosition.PackRoundTrip` | protocol/protocol/src/data_types/position.rs:20-37 | coordinates within ±2^25 (X, Z) and ±2^11 (Y) survive encode then decode of the word exactly |
| `BlockPosition.RoundTrip` | protocol/protocol/src/data_types/position.rs:17-38 | an in-range position appended to any buffer decodes back from where it was written, whatever bytes follow, with the cursor past its eight bytes |
| `BlockPosition.TestVectorRoundTrips` | protocol/protocol/src/data_types/position.rs:44-53 | the unit test's position (18357644, 831, -20882616) encodes into eight bytes and decodes back equal |
| `LongCodec.EncodeLong` | protocol/protocol/src/data_types/position.rs:36 | writing an `i64` appends exactly eight bytes and leaves the bytes already in the buffer untouched |
| `LongCodec.DecodeLong` | protocol/protocol/src/data_types/position.rs:21 | reading an `i64` fails with `NotEnoughBytes` exactly when fewer than eight bytes remain, and otherwise moves the cursor by eight |
| `LongCodec.LongRoundTrip` | protocol/protocol/src/data_types/position.rs:21-36 | the `i64` that `encode` writes is the one `decode` reads back at the same position |
| `ProtocolVersions.VersionNumber` | libraries/minecraft_protocol/src/protocol_version.rs:4-33 | every release's protocol version number lies between 757 and 769 |
| `ProtocolVersions.CatalogueNumbers` | libraries/minecraft_protocol/src/protocol_version.rs:4-33 | the catalogue lists all thirteen releases, newest first, with numbers running from 769 down to 757 without gaps |
| `ProtocolVersions.NumbersUnique` | libraries/minecraft_protocol/src/protocol_version.rs:4-33 | no two releases share a version number |
| `ProtocolVersions.Default` | libraries/minecraft_protocol/src/protocol_version.rs:4-8 | the default release has number 769, and every release is at most it |
| `ProtocolVersions.Eq` | libraries/minecraft_protocol/src/protocol_version.rs:35-39 | `eq` compares version numbers, and this holds exactly when the two releases are the same |
| `ProtocolVersions.Cmp` | libraries/minecraft_protocol/src/protocol_version.rs:49-53 | `cmp` answers Less exactly when the first release comes later in the newest-first catalogue, Equal exactly for the same release, and Greater otherwise |
| `ProtocolVersions.PartialCmp` | libraries/minecraft_protocol/src/protocol_version.rs:43-47 | `partial_cmp` is always defined, and answers Less, Equal or Greater as the first version number is below, equal to or above the second |
| `ProtocolVersions.CmpAgreesWithEq` | libraries/minecraft_protocol/src/protocol_version.rs:35-53 | `cmp` answers Equal exactly when `eq` holds, and swapping its arguments turns Less into Greater |
| `ProtocolVersions.LeByNumber` | libraries/minecraft_protocol/src/protocol_version.rs:43-53 | `<=` and `<` on releases are `<=` and `<` on their version numbers |
| `ProtocolVersions.TotalOrder` | libraries/minecraft_protocol/src/protocol_version.rs:43-53 | `<=` is reflexive, antisymmetric, transitive and total, and `<` is `<=` on distinct releases |
| `ProtocolVersions.TestOrdering` | libraries/minecraft_protocol/src/protocol_version.rs:59-70 | the unit test's comparisons: 1.21 < 1.21.2 < 1.21.4, 1.21.4 > 1.21.2, 1.21.4 == 1.21.4 and 1.21.2 != 1.21.4 |
| `ClientSession.Client.constructor` | server/src/server/client.rs:34-43 | a new session starts in `Handshake` with no version and no game profile, holding the given packet map, and has sent nothing |
| `ClientSession.Client.CurrentVersion` | server/src/server/client.rs:114-116 | the negotiated version when one is set, otherwise the default |
| `ClientSession.Client.PacketNameFromId` | server/src/server/client.rs:118-130 | the map's answer for the current version, the current state and the server-bound direction is returned as it is, found name or no name, and a lookup error counts as no name |
| `ClientSession.Client.ReadPacket` | server/src/server/client.rs:45-57 | a stream failure is passed through as `PacketStream`; a frame whose id resolves becomes a named packet with the frame's payload; any other id is refused as `UnknownPacket(id)` |
| `ClientSession.Client.UpdateState` | server/src/server/client.rs:59-62 | the session's state becomes the given one; nothing else changes |
| `ClientSession.Client.SendPacket` | server/src/server/client.rs:64-92 | exactly one frame, carrying the packet's id for the current version and its encoded payload, is written when the id is known, encoding succeeds and the stream accepts the write; otherwise nothing is written and no error reaches the caller |
| `ClientSession.KeepAlivePacket` | server/src/server/client.rs:101 | the keep-alive packet carries the keep-alive name, and its eight-byte payload reads back as the given `i64` |
| `ClientSession.Client.SendKeepAlive` | server/src/server/client.rs:98-104 | outside `Play` nothing is sent; in `Play` one keep-alive frame carrying the given random `i64` is sent when its id is known and the write succeeds |
| `ClientSession.Client.SetGameProfile` | server/src/server/client.rs:106-108 | the game profile becomes the given one, and may be replaced later |
| `ClientSession.Client.SetProtocol` | server/src/server/client.rs:110-112 | the version is set, and from then on every lookup uses it |
| `NbtField.Encode` | protocol/protocol/src/data_types/nbt.rs:28-34 | the blob's bytes are appended verbatim with no length prefix, and the result is always success |
| `VarInt.WrapI32` | server/src/packets/play/chunk_data_and_update_light_packet.rs:77 | `len() as i32` keeps the low 32 bits, and leaves any length below 2^31 unchanged |
| `ChunkDataAndUpdateLight.DefaultPacket` | server/src/packets/play/chunk_data_and_update_light_packet.rs:31-34 | the default packet's `size` field is the byte length of its encoded sections, read as an `i32` |
| `ChunkDataAndUpdateLight.DefaultShape` | server/src/packets/play/chunk_data_and_update_light_packet.rs:22-50 | the default packet is chunk (0, 0) with 24 void sections, a height map holding a single 37-long `MOTION_BLOCKING` array of zeros, and no block entities, light masks or light arrays |
| `ChunkDataAndUpdateLight.EncodeBlockEntity` | server/src/packets/play/chunk_data_and_update_light_packet.rs:60-63 | encoding a block entity leaves the buffer as it was |
| `ChunkDataAndUpdateLight.EncodeLight` | server/src/packets/play/chunk_data_and_update_light_packet.rs:76-83 | the buffer grows by the VarInt of the array's length followed by each `i8` cast to `u8`, in order |
| `ChunkDataAndUpdateLight.LightLayout` | server/src/packets/play/chunk_data_and_update_light_packet.rs:76-83 | a reader of those bytes decodes the length prefix to the array's length and then finds each element, one byte each, reading back as the same `i8` |
| `Bytes.ToU8` | server/src/packets/play/chunk_data_and_update_light_packet.rs:80 | `value as u8` keeps the bit pattern: casting back to `i8` gives the original value |
| `VarInt.Encode` | server/src/packets/play/chunk_data_and_update_light_packet.rs:77-78 | a VarInt takes one to five bytes, and every byte but the last has its continuation bit set |
| `VarInt.Decode` | server/src/packets/play/chunk_data_and_update_light_packet.rs:77-78 | a successful read consumes between one and five bytes from the cursor |
| `VarInt.RejectsOverlong` | server/src/packets/play/chunk_data_and_update_light_packet.rs:77-78 | five bytes in a row with the continuation bit set are refused as `TooLong` |
| `VarInt.RoundTrip` | server/src/packets/play/chunk_data_and_update_light_packet.rs:77-78 | the length prefix written for a light array decodes back to the same 32-bit value at the same position, whatever follows |

## Left out

- Socket I/O, framing and async execution are left out. `ReadPacket` receives the frame or error the stream produced, and `SendPacket` receives whether the write succeeded. Frames accepted by the stream are recorded in the ghost log `sent`.
- Logging through `tracing` is left out; it does not affect behaviour.
- `get_random` is left out, because it draws from a random generator. `SendKeepAlive` takes the random value as a parameter.
- The `state()` getter is not a member of its own; the model reads the `state` field directly.
- `SharedClient`, the `Arc<Mutex<Client>>` alias, is left out. Concurrency is not modelled.
- The game profile, stream errors, encoder errors and packet-map errors are abstract types. Their contents are defined outside this core.
- The packet map's tables are not part of this model. Their bijectivity is therefore not proved; `PacketMap` is any pair of lookup functions.
- The block-position coordinates are `f64` in the source. Only integral values are modelled. The fractional part that `as i64` truncates, NaN, and the `i64`-to-`f64` conversion are left out. The conversion is exact for every decoded value, since all of them fit in 26 bits.
- The `i64` and `VarInt` serializers are not part of this model. Their wire forms are the assumptions stated above.
- `Nbt::to_bytes`, the rest of the NBT format, and the encoding of chunk sections are not part of this model. They are function parameters.
- The `From` conversions into `NbtEncodeError` only build the error values; nothing in the modelled code produces such an error.
- `ChunkDataAndUpdateLight.DefaultPacket`: the `unwrap` on encoding the sections cannot fail in the model, because the section encoder is a total function. The panic path is not modelled.
- The full wire encoding of the chunk packet is left out. It is generated by the `PacketOut` derive macro, whose code is not part of this model. Of the packet's fields, only the block-entity, light-array and NBT encoders are modelled.
- `EncodeLight` and `EncodeBlockEntity` do not return the source's `Result<(), Infallible>`, because it can only be `Ok`.
- Other packets, the event handler and the derive macros are not part of this model.
