# rcon-lib in Dafny

A verified model of rcon-lib, a Rust client for the Source-engine RCON protocol (the
"Source RCON Protocol" page of the Valve Developer Community). The model is built in
layers, one Dafny module per source file:

- `Serialization` (serialization.dfy): the `i32` codec, four little-endian bytes
  holding the two's-complement pattern.
- `PacketTypes` (packet_type.dfy): the three-valued packet type and its total,
  lossy conversion from `i32`.
- `Utf8` (utf8.dfy): the well-formedness check that `String::from_utf8` performs.
  It is written out from table 3-7 of the Unicode Standard, section 3.9. A Rust
  `String` is modelled by its bytes, of type `Utf8Bytes`.
- `Packets` (packet.dfy): the logical `Packet` struct. `Packet::new` is the
  datatype's constructor.
- `RawPackets` (raw_packet.dfy): the wire packet. A frame is
  `size ++ id ++ type ++ body ++ 00 00`, with `size = |body| + 10`.
- `PacketCodec` (packet_codec.dfy): `Packet::serialize`, `from_raw` and
  `from_raw_with_size`. This is a separate module from `Packets` because Dafny
  modules cannot import each other in a cycle, and the raw layer needs `Packet`.
  `PacketExamples`, in the same file, holds the worked frame of the authentication
  packet.
- `Net` (net.dfy): the client session. The `TcpStream` becomes a `Stream` object.
  Its fields are the bytes the server sends (fixed in advance), a read cursor, the
  log of bytes written, and whether writes succeed. `Client` is a class with the
  packet-id counter and the stream. Its methods are proved against two pure
  functions: `ReadFrame`, which reads one frame, and `AuthExchange`, the two-read
  authentication rule.

Integers are Dafny's unbounded `int`, restricted to the `i32` range by the subset
type `Int32`. Bytes are integers 0..255. The `as i32` cast of the body length in
`RawPacket::from` is written out as a wrap-around (`AsI32`).

Where the Rust code panics, the pure functions carry the panic's condition as a
`requires`: input shorter than 14 bytes for `deserialize`, and a body that is not
UTF-8 for the conversion to `Packet`. The client methods instead return a distinct
`Panicked` outcome. They do so when the size prefix is negative, because
`size as usize` makes `vec!` ask for more than `isize::MAX` bytes. They also do so
when the frame read cannot be decoded.

Two edges of the code shape the model:

- `deserialize` needs at least 14 bytes: the slice `12..len-2`
  (src/packet/raw/mod.rs:37) panics below that, so `Deserialize` requires 14.
- `new_packet` can fail: `packet_idx += 1` (src/net/mod.rs:37) overflows at
  `i32::MAX`, so the client methods require the counter to be below it.

## Model

| member | source | states |
|---|---|---|
| Serialization.Unsigned | src/packet/serialization/mod.rs:3 | the bit pattern of an `i32` is below 2^32 and congruent to it modulo 2^32 (two's complement) |
| Serialization.LittleEndian | src/packet/serialization/mod.rs:8 | the number that n bytes denote, least significant first, is below 256^n |
| Serialization.ToLittleEndian | src/packet/serialization/mod.rs:3 | yields exactly n bytes, and they denote the given number |
| Serialization.SerializeI32 | src/packet/serialization/mod.rs:2-4 | always 4 bytes, least significant first, denoting the two's-complement pattern of the value |
| Serialization.DeserializeI32 | src/packet/serialization/mod.rs:7-9 | total on every 4 bytes; the result's two's-complement pattern is the number the bytes denote |
| Serialization.LittleEndianInjective | src/packet/serialization/mod.rs:7-9 | two byte sequences of one length that denote the same number are equal |
| Serialization.UnsignedInjective | src/packet/serialization/mod.rs:3 | distinct `i32` values have distinct bit patterns |
| Serialization.DeserializeSerialize | src/packet/serialization/mod.rs:2-9 | decoding the encoding of any `i32` gives it back |
| Serialization.SerializeDeserialize | src/packet/serialization/mod.rs:2-9 | every 4-byte pattern is the encoding of the value it decodes to |
| Serialization.SerializeExamples | src/packet/serialization/mod.rs:3 | -1 encodes as FF FF FF FF, 18 as 12 00 00 00, 1 and 3 and i32::MIN as expected |
| Serialization.SerializeSmall | src/packet/serialization/mod.rs:3 | a value in 0..255 encodes as itself followed by three zero bytes |
| PacketTypes.ToI32 | src/packet/type/mod.rs:13-17 | the discriminant is 0, 2 or 3, and converting it back gives the same variant |
| PacketTypes.FromI32 | src/packet/type/mod.rs:19-27 | SDAuth iff the value is 3, SDExecCommandAndAuthResponse iff 2, SDResponseValue for every other value |
| PacketTypes.Discriminants | src/packet/type/mod.rs:7-11 | SDAuth is 3, SDExecCommandAndAuthResponse is 2, SDResponseValue is 0 |
| PacketTypes.ToI32Injective | src/packet/type/mod.rs:13-17 | distinct variants have distinct discriminants |
| PacketTypes.FromI32RoundTrip | src/packet/type/mod.rs:19-27 | a value survives the trip through the enum iff it is 0, 2 or 3 |
| Utf8.ValidUtf8 | src/packet/raw/mod.rs:18 | the check `String::from_utf8` makes before the `unwrap`: the bytes split into well-formed sequences of table 3-7 of the Unicode Standard |
| Utf8.AsciiValid | src/packet/raw/mod.rs:18 | bytes that are all below 0x80 pass the check |
| Utf8.NoLeadingContinuation | src/packet/raw/mod.rs:18 | bytes that pass the check never start with a continuation byte |
| Utf8.LeadingSequenceLength | src/packet/raw/mod.rs:18 | the well-formed UTF-8 sequence at the start of the bytes is at most 4 bytes and fits in the input; an ASCII byte is a sequence of its own |
| RawPackets.AsI32 | src/packet/raw/mod.rs:26 | the `as i32` cast keeps the value modulo 2^32 and leaves every value up to i32::MAX unchanged |
| RawPackets.From | src/packet/raw/mod.rs:24-31 | size is body length + 10 when that fits in an `i32`; id and body bytes are copied; the type field is the variant's discriminant (`as i32`); converting back to a `Packet` gives the packet back |
| RawPackets.Layout | src/packet/raw/mod.rs:42-53 | a frame is 14 bytes longer than the body |
| RawPackets.Serialize | src/packet/raw/mod.rs:42-53 | the extended buffer is LE(size) ++ LE(id) ++ LE(type) ++ body ++ 00 00, of length body + 14, and `deserialize` recovers the raw packet from it |
| RawPackets.Deserialize | src/packet/raw/mod.rs:33-40 | on 14 or more bytes, the first twelve bytes encode size, id and type, and the body is everything up to the last two bytes; shorter input is excluded (the slices panic) |
| RawPackets.ToPacket | src/packet/raw/mod.rs:13-21 | copies id and body; the type is the fallback conversion of the tag, so the tag is kept iff it is 0, 2 or 3; requires a UTF-8 body (the `unwrap`) |
| RawPackets.DeserializeLayout | src/packet/raw/mod.rs:33-53 | `deserialize(serialize(r)) == r` for every raw packet |
| RawPackets.LayoutDeserialize | src/packet/raw/mod.rs:33-53 | re-serializing a deserialized input reproduces it iff its last two bytes are zero: the terminator is never checked |
| RawPackets.DeserializeIgnoresSizeAndTerminator | src/packet/raw/mod.rs:33-39 | the declared size and the last two bytes have no influence on the decoded id, type and body |
| PacketCodec.Decodable | src/packet/raw/mod.rs:33-37 | what decoding a frame needs so as not to panic: at least 14 bytes for the slices of `deserialize`, and a UTF-8 body for the `unwrap` at src/packet/raw/mod.rs:18 |
| PacketCodec.Serialize | src/packet/mod.rs:31-33 | length is body + 14; the size prefix decodes to body + 10 when that fits; bytes 4..8 decode to the id and 8..12 to the type's discriminant, which converts back to the type; the frame is decodable |
| PacketCodec.FromRaw | src/packet/mod.rs:23-25 | id is the value of bytes 4..8, type is read from bytes 8..12 with the fallback rule, body is bytes 12 to length - 2 |
| PacketCodec.FromRawWithSize | src/packet/mod.rs:27-29 | the same fields, read from the data after the prefix; the prefix itself has no influence |
| PacketCodec.FromRawSerialize | src/packet/mod.rs:23-33 | `from_raw(p.serialize()) == p` for every packet, the property of the packet tests at src/packet/mod.rs:69-79 |
| PacketCodec.FromRawWithSizeConcat | src/packet/mod.rs:27-29 | `from_raw_with_size(sz, data) == from_raw(sz ++ data)` |
| PacketCodec.FromRawWithSizeSerialize | src/packet/mod.rs:27-33 | a serialized frame split after its prefix decodes to the original packet |
| PacketExamples.AuthHeader | src/packet/mod.rs:31-33 | the twelve header bytes of an SDAuth frame with id 1 and an 8-byte body |
| PacketExamples.AuthFrame | src/packet/mod.rs:31-33 | an SDAuth packet with id 1 and an 8-byte body serializes to 12 00 00 00 01 00 00 00 03 00 00 00, the body, 00 00 |
| PacketExamples.PasswordFrame | src/packet/mod.rs:31-33 | the frame of id 1, SDAuth, "password" byte for byte |
| Net.Result.AsFailure | src/net/mod.rs:103-111 | the early `return Err(err)`: a failure passed on to a caller of another result type is the same failure |
| Net.ReadFrame | src/net/mod.rs:43-57 | a successful read consumes at least 14 bytes: the 4-byte prefix and exactly the count it announces, and its packet is `from_raw` of those bytes, which are decodable; an I/O error consumes the whole stream |
| Net.DecodeFrame | src/net/mod.rs:56 | `from_raw_with_size` on the prefix and the data read: a packet iff prefix and data together are decodable, and then it is `from_raw` of them; otherwise a panic, never an I/O error |
| Net.ReadFrameOkIffDecodable | src/net/mod.rs:43-57 | a read returns a packet iff the prefix is complete, announces a non-negative count, the stream holds that many bytes, and the frame is decodable |
| Net.ReadFrameFailsIffShort | src/net/mod.rs:43-57 | a read fails with an I/O error iff the stream ends inside the prefix or inside the announced bytes |
| Net.ReadFrameSerialized | src/net/mod.rs:43-57 | a serialized frame in the stream is read back as the same packet and exactly its bytes are consumed |
| Net.ReadFrameTruncated | src/net/mod.rs:43-57 | a stream that ends after the prefix but inside the frame gives an I/O error, not a packet |
| Net.AuthExchange | src/net/mod.rs:103-118 | the two-read exchange ends within the stream, and a rejection carries the submitted password |
| Net.AuthExchangeOutcome | src/net/mod.rs:103-118 | once the first read has returned a packet, whatever it holds, and the next bytes are a serialized frame, the result is rejection iff that frame's id is -1, success otherwise, and both frames are consumed |
| Net.AuthExchangeTwoReads | src/net/mod.rs:103-118 | when both reads return packets, the verdict depends only on the second one's id |
| Net.ReadAfterPrefix | src/net/mod.rs:43-57 | a serialized frame after any bytes is read back whole from its start |
| Net.ReadFirstOfReply | src/net/mod.rs:43-57 | the first read of two serialized frames returns the first packet and stops at the second frame |
| Net.ReadSecondOfReply | src/net/mod.rs:43-57 | the read at the second of two serialized frames returns the second packet and consumes the rest |
| Net.AuthExchangeReply | src/net/mod.rs:103-118 | on a reply of two serialized frames the exchange is rejected iff the second frame's id is -1 and consumes the whole reply |
| Net.AuthExchangePropagates | src/net/mod.rs:103-111 | a failure of the first or the second read is the failure of the exchange |
| Net.Stream.ReadExact | src/net/mod.rs:44-54 | `read_exact`: the next n bytes, or an error after which the stream is used up |
| Net.Stream.Write | src/net/mod.rs:70 | `write`: the whole buffer is appended to the output, or nothing is and an error is returned |
| Net.Client.constructor | src/net/mod.rs:19-28 | a new client's counter is 0 and no packet has been issued |
| Net.Client.NewPacket | src/net/mod.rs:35-40 | the packet has the old counter as id and the given type and body; the counter grows by exactly 1; the k-th packet issued has id k - 1 (class invariant) |
| Net.Client.ReadPacket | src/net/mod.rs:43-57 | the result and the new cursor are those of `ReadFrame` at the old cursor; nothing else changes |
| Net.Client.SendPacket | src/net/mod.rs:68-74 | the new packet's frame is appended to the output and its id returned; on a write error nothing is written and the counter has still advanced |
| Net.Client.ExecCommand | src/net/mod.rs:84-86 | `send_packet` with type SDExecCommandAndAuthResponse |
| Net.Client.Authenticate | src/net/mod.rs:95-119 | writes one SDAuth packet holding the password, then the result and cursor are those of `AuthExchange`; a write error returns before any read; the counter advances in every case |
| Net.AuthenticateScenario | src/net/mod.rs:126-136 | against a server that sends an empty packet and then a response with id 0 (accept) or -1 (reject), a fresh client's authentication succeeds or is rejected with the password |
| Net.SendCommandScenario | src/net/mod.rs:138-150 | after a successful authentication on a fresh client, `exec_command` returns id 1 |

## Left out

- `Client::new` opening the TCP connection (`TcpStream::connect`): the constructor takes a stream that is already connected. A failed connect is not modelled.
- Timing and blocking: the bytes the server sends are fixed when the stream is made. A read never waits; it either finds its bytes or fails as at end of stream.
- Partial writes: `write` is modelled as sending the whole buffer or failing. The Rust code ignores the count that `write` returns.
- The kinds and messages of `std::io::Error`: every transport failure is one `IoError`. The authentication failure is `AuthRejected(password)`, standing for the `ErrorKind::Other` error that carries the password.
- Panics are not unwinding: the client methods report them as the `Panicked` outcome, and the pure functions exclude them by `requires`.
- Net.Client.NewPacket: requires the counter to be below i32::MAX, so the overflow of `packet_idx += 1` (a panic in debug builds, a wrap in release builds) is not modelled. The same holds for SendPacket, ExecCommand and Authenticate.
- UTF-8 is modelled only as the byte-level well-formedness check. The `char` view of a `String` is not modelled.
- `serialize` working on a clone of `self` needs no statement: Dafny functions have no side effects.
- The fixture files of the packet tests (`./test/packet_{i}.bin`) are not part of this model. Their round-trip property is `PacketCodec.FromRawSerialize`.
- The live-server tests run against 127.0.0.1:5555. They are modelled only as the scenario methods, with the server's replies written into the stream in advance.
