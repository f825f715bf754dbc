# Packet: a fixed-capacity, checksummed wire packet

This project models `Packet` from `src/packet.rs` and proves properties of the model. A
`Packet` carries:

- a 32-bit `uid`;
- a 4096-byte payload buffer;
- the logical length `payload_len`;
- a one-byte `payload_type`;
- a one-byte `version`;
- a CRC-16/X.25 checksum over the logical payload.

Packets are built with silent truncation, checked against their checksum, written into
a caller's buffer in bincode's fixed-width little-endian layout and read back.

The project has three modules:

- `Crc16` (`crc16.dfy`): CRC-16/X.25, also called CRC-16/IBM-SDLC, which the source
  uses as `X25`. It is written bit by bit.
  - Parameters: reflected polynomial 0x8408, initial register 0xFFFF, final XOR 0xFFFF.
  - Proved: the standard check value; the checksum is a left fold over the bytes;
    any change confined to one byte changes the checksum.
- `LittleEndian` (`little_endian.dfy`): the fixed-width little-endian integers bincode
  writes for `u32`, `usize` (pinned to 8 bytes) and `u16`, with round trips in both
  directions.
  - `u32` and `usize` are integer newtypes bounded by 2^32 and 2^64.
  - `u16` is `bv16`, like the CRC register.
- `Packets` (`packet.dfy`): the `Packet` value, `new`, `is_valid`, `serialize` and
  `deserialize`.
  - `new` and `serialize` are methods over arrays: a zero-filled local buffer, and the
    caller's buffer.
  - `copy_from_slice` is a loop with its frame.
  - `is_valid`, the encoding (`Encode`) and `deserialize` (`Decode`) are functions.

Wire layout (4112 bytes), in field order:

| field | offset | width |
|---|---|---|
| `uid` | 0 | 4 |
| `payload` | 4 | 4096, the whole buffer, no length prefix |
| `payload_len` | 4100 | 8 |
| `payload_type` | 4108 | 1 |
| `version` | 4109 | 1 |
| `checksum` | 4110 | 2 |

`is_valid` slices `payload[..payload_len]`, and Rust panics on that slice when
`payload_len` exceeds 4096. The model therefore gives `IsValid` the precondition
`payloadLen <= MAX_PAYLOAD_SIZE`.

Nothing in `deserialize` establishes that precondition: a wire image may carry any
length, as `DecodeAdmitsOversizedLength` shows.

A corrupted `payload_len` is NOT always caught: the checksum covers the bytes the length
selects, not the length itself.

- `LengthCorruptionCanGoUndetected` exhibits a counterexample.
- The CRC register after the byte 0x87 is a fixed point of feeding 0x48.
- So a valid one-byte packet whose padding starts with 0x48 stays valid when its length
  becomes 2.

## Model

| member | source | states |
|---|---|---|
| Packets.CopyFromSlice | src/packet.rs:23 | `copy_from_slice` writes exactly `src` into `dst[at..at+|src|]` and leaves every other element as it was |
| Packets.New | src/packet.rs:20-32 | `payloadLen` is `min(|data|, 4096)`, the payload prefix equals that prefix of `data`, the tail is zero, `uid` and `payloadType` are copied, `version` is 0, the checksum is the CRC of the kept bytes, and the packet is valid |
| Packets.CheckValuePacket | src/packet.rs:20-32 | `new(42, 7, "123456789")` gives length 9, version 0, checksum 0x906E, and a valid packet |
| Packets.IsValid | src/packet.rs:33-35 | a packet is valid when the CRC of `payload[..payloadLen]` equals the stored checksum; requires `payloadLen <= 4096`, where the source's slice would panic; has no `ensures` of its own, and its meaning is stated by `New`, `ChecksumScope` and the detection lemmas |
| Packets.Encode | src/packet.rs:8-17 | the encoding of every packet is exactly 4112 bytes long |
| Packets.SerializedSize | src/packet.rs:37 | `serialized_size` equals the length of the encoding, 4112, for every packet |
| Packets.EncodeFields | src/packet.rs:8-17 | each field sits at its fixed offset in the encoding: uid at 0, the full payload at 4, the length at 4100, type at 4108, version at 4109, checksum at 4110 |
| Packets.HeadFields | src/packet.rs:10-13 | the first 4108 bytes are the LE uid, the payload buffer and the LE length, in that order |
| Packets.TailFields | src/packet.rs:14-16 | the last 4 bytes are the type, the version and the LE checksum |
| Packets.Serialize | src/packet.rs:36-43 | a buffer shorter than 4112 gives `BufferTooSmall` and is unchanged; otherwise the result is `Ok(4112)`, `buffer[..4112]` is the encoding and every later byte is unchanged |
| Packets.WriteField | src/packet.rs:41 | each field write extends the correctly written prefix and never touches bytes past the encoding |
| Packets.Decode | src/packet.rs:44-46 | decoding succeeds exactly when the input has at least 4112 bytes; otherwise it fails with `DecodeError` |
| Packets.DecodeEncode | src/packet.rs:36-46 | decoding an encoding gives the same packet back, padding tail included |
| Packets.EncodeDecode | src/packet.rs:44-46 | any input of at least 4112 bytes decodes, and its first 4112 bytes are the encoding of the result |
| Packets.RoundTrip | src/packet.rs:20-46 | a packet from `new`, serialized into a 4112-byte buffer and deserialized, arrives equal and valid, with length `min(|data|, 4096)` and payload prefix equal to `data` |
| Packets.DecodeAdmitsOversizedLength | src/packet.rs:44-45 | a wire image whose length field exceeds 4096 still decodes, keeping that length |
| Packets.ChecksumScope | src/packet.rs:33-35 | two packets with the same `payloadLen`, the same checksum and the same `payload[..payloadLen]` are valid alike, whatever their other fields and padding |
| Packets.UnprotectedFieldsIgnored | src/packet.rs:33-35 | replacing the whole padding past `payloadLen` by any bytes, together with any new `uid`, `payloadType` and `version`, leaves validity unchanged, for every length up to 4096 |
| Packets.CorruptedPayloadDetected | src/packet.rs:33-35 | changing any one byte of the logical payload of a valid packet makes it invalid |
| Packets.CorruptedChecksumDetected | src/packet.rs:33-35 | changing the stored checksum of a valid packet makes it invalid |
| Packets.LengthCorruptionCanGoUndetected | src/packet.rs:33-35 | a valid packet with length 1 stays valid when its length becomes 2 |
| Crc16.Checksum | src/packet.rs:5 | `X25.checksum`: the register after feeding the data from 0xFFFF, XORed with 0xFFFF; has no `ensures` of its own, and its meaning is stated by `CheckValue` and the injectivity lemmas |
| Crc16.CheckValue | src/packet.rs:5 | the checksum of ASCII "123456789" is 0x906E, the CRC-16/X.25 check value |
| Crc16.RegisterAppend | src/packet.rs:5 | feeding `a + b` equals feeding `a`, then `b`, from the register `a` leaves |
| Crc16.ShiftBitInjective | src/packet.rs:5 | one shift step maps different registers to different registers |
| Crc16.ShiftInjective | src/packet.rs:5 | any number of shift steps maps different registers to different registers |
| Crc16.UpdateByteInjective | src/packet.rs:5 | two different bytes fed into the same register leave different registers |
| Crc16.RegisterInjective | src/packet.rs:5 | two different registers stay different after feeding the same data |
| Crc16.SingleByteErrorDetected | src/packet.rs:5 | any change confined to one byte of the data changes the checksum |
| LittleEndian.FromLeBytes | src/packet.rs:8-17 | decoding the n little-endian bytes of `x < 256^n` gives `x` |
| LittleEndian.LeBytesFromLe | src/packet.rs:8-17 | encoding the number a byte string denotes gives the same bytes back |
| LittleEndian.Le32 | src/packet.rs:10 | bincode writes a `u32` as 4 bytes |
| LittleEndian.FromLe32 | src/packet.rs:10 | the `u32` read from 4 bytes re-encodes to those same bytes |
| LittleEndian.Le32RoundTrip | src/packet.rs:10 | the 4-byte `u32` encoding decodes to the same value |
| LittleEndian.Le64 | src/packet.rs:13 | bincode writes a `usize` as 8 bytes |
| LittleEndian.FromLe64 | src/packet.rs:13 | the `usize` read from 8 bytes re-encodes to those same bytes |
| LittleEndian.Le64RoundTrip | src/packet.rs:13 | the 8-byte `usize` encoding decodes to the same value |
| LittleEndian.Le16 | src/packet.rs:16 | bincode writes a `u16` as 2 bytes |
| LittleEndian.FromLe16 | src/packet.rs:16 | the `u16` read from 2 bytes re-encodes to those same bytes |
| LittleEndian.Le16RoundTrip | src/packet.rs:16 | the 2-byte `u16` encoding decodes to the same value |

## Left out

- The table-driven evaluation inside the `crc` crate is not modelled. The checksum is
  the bit-by-bit definition of the same CRC-16/X.25 parameters.
- The error payloads are not modelled. The source returns `Box<dyn Error>`, with a
  message for the short buffer and bincode's own error kinds for decoding; the model
  keeps only the two outcomes, `BufferTooSmall` and `DecodeError`.
- The `?` on `bincode::serialized_size` is not modelled. It cannot fail for this
  fixed-size struct, so `SerializedSize` is total.
- `usize` is pinned to 64 bits, the width bincode writes; platform word sizes are not
  modelled.
- Packets.Decode: reads the first 4112 bytes and ignores any bytes after them, as
  bincode's top-level `deserialize` does with its default options. Other bincode
  option sets, which can reject trailing bytes, are not modelled.
- Packets.Serialize: bincode writes into the slice `buffer[..size]` field by field.
  Its failure path is not modelled, because writing into a slice large enough for the
  whole encoding cannot fail.
- The `Debug` derive, the serde and `serde_big_array` machinery and the rest of the
  repository (transport, callers, concurrency) are not part of this model.
- Packets.IsValid: has no `ensures` of its own. It requires `payloadLen <= 4096` where
  the source would panic; its meaning is stated by the detection lemmas beside it.
