/** The conversions of `impl Packet` in src/packet/mod.rs: to wire bytes and back,
    each a composition of the raw packet functions. */
module PacketCodec {
  import opened Serialization
  import opened PacketTypes
  import opened Utf8
  import opened Packets
  import opened RawPackets

  /** What `from_raw` needs to return rather than panic: room for the three
      integer fields and the terminator, and a UTF-8 body. */
  predicate Decodable(packetData: seq<Byte>)
  {
    |packetData| >= 14 && ValidUtf8(packetData[12..|packetData| - 2])
  }

  /** `Packet::serialize`: body length plus 14 bytes; the size prefix decodes to the
      body length plus 10 whenever that fits in an `i32`; then the id and the type's
      wire discriminant. */
  function Serialize(p: Packet): (bytes: seq<Byte>)
    ensures |bytes| == |p.body| + 14
    ensures |p.body| + 10 <= MaxInt32 ==> DeserializeI32(bytes[..4]) == |p.body| + 10
    ensures DeserializeI32(bytes[4..8]) == p.id
    ensures DeserializeI32(bytes[8..12]) == ToI32(p.ty)
    ensures FromI32(DeserializeI32(bytes[8..12])) == p.ty
    ensures Decodable(bytes)
  {
    var r := From(p);
    var bytes := Layout(r);
    DeserializeLayout(r);
    DeserializeSerialize(r.sz);
    DeserializeSerialize(r.id);
    DeserializeSerialize(r.ty);
    bytes
  }

  /** `Packet::from_raw`: the id is the value of bytes 4..8, the type tag is read from
      bytes 8..12 with the fallback rule, and the body is the bytes between offset
      12 and the last two. */
  function FromRaw(packetData: seq<Byte>): (p: Packet)
    requires Decodable(packetData)
    ensures SerializeI32(p.id) == packetData[4..8]
    ensures p.ty == FromI32(DeserializeI32(packetData[8..12]))
    ensures p.body == packetData[12..|packetData| - 2]
  {
    var r := Deserialize(packetData);
    DeserializeSerialize(r.ty);
    ToPacket(r)
  }

  /** `Packet::from_raw_with_size`: the decoding of a frame whose size prefix was read
      separately; its result depends on the prefix not at all. */
  function FromRawWithSize(packetSize: seq<Byte>, packetData: seq<Byte>): (p: Packet)
    requires |packetSize| == 4 && Decodable(packetSize + packetData)
    ensures SerializeI32(p.id) == packetData[..4]
    ensures p.ty == FromI32(DeserializeI32(packetData[4..8]))
    ensures p.body == packetData[8..|packetData| - 2]
  {
    var frame := packetSize + packetData;
    assert frame[4..8] == packetData[..4];
    assert frame[8..12] == packetData[4..8];
    assert frame[12..|frame| - 2] == packetData[8..|packetData| - 2];
    FromRaw(frame)
  }

  /** Decoding what `serialize` produced gives the packet back, for every id, type
      and body (the round trip the repository's packet tests check). */
  lemma FromRawSerialize(p: Packet)
    ensures FromRaw(Serialize(p)) == p
  {
    var r := From(p);
    DeserializeLayout(r);
  }

  /** The prefix-and-rest form agrees with decoding the whole frame. */
  lemma FromRawWithSizeConcat(packetSize: seq<Byte>, packetData: seq<Byte>)
    requires |packetSize| == 4 && Decodable(packetSize + packetData)
    ensures FromRawWithSize(packetSize, packetData) == FromRaw(packetSize + packetData)
  {
  }

  /** Reading a frame in two parts gives back the packet that was serialized. */
  lemma FromRawWithSizeSerialize(p: Packet)
    ensures Decodable(Serialize(p)[..4] + Serialize(p)[4..])
    ensures FromRawWithSize(Serialize(p)[..4], Serialize(p)[4..]) == p
  {
    var bytes := Serialize(p);
    assert bytes[..4] + bytes[4..] == bytes;
    FromRawSerialize(p);
  }
}

/** A worked frame: the authentication packet the repository's tests send. */
module PacketExamples {
  import opened Serialization
  import opened PacketTypes
  import opened Utf8
  import opened Packets
  import opened RawPackets
  import opened PacketCodec

  /** The bytes of "password". */
  const Password: Utf8Bytes := [0x70, 0x61, 0x73, 0x73, 0x77, 0x6F, 0x72, 0x64]

  /** The frame of an authentication packet with id 1 and an 8-byte body: size 18,
      id 1, type 3, the body, two zero bytes. */
  lemma AuthFrame(body: Utf8Bytes)
    requires |body| == 8
    ensures PacketCodec.Serialize(Packet(1, SDAuth, body))
         == [0x12, 0, 0, 0, 0x01, 0, 0, 0, 0x03, 0, 0, 0] + body + [0, 0]
  {
    var r := RawPacket(18, 1, 3, body);
    assert From(Packet(1, SDAuth, body)) == r;
    assert PacketCodec.Serialize(Packet(1, SDAuth, body)) == Layout(r);
    AuthHeader();
  }

  /** The twelve header bytes of that frame. */
  lemma AuthHeader()
    ensures SerializeI32(18) + SerializeI32(1) + SerializeI32(3)
         == [0x12, 0, 0, 0, 0x01, 0, 0, 0, 0x03, 0, 0, 0]
  {
    SerializeSmall(18);
    SerializeSmall(1);
    SerializeSmall(3);
  }

  /** The frame of the packet with id 1, type SDAuth and body "password". */
  lemma PasswordFrame()
    ensures PacketCodec.Serialize(Packet(1, SDAuth, Password))
         == [0x12, 0, 0, 0, 0x01, 0, 0, 0, 0x03, 0, 0, 0]
          + [0x70, 0x61, 0x73, 0x73, 0x77, 0x6F, 0x72, 0x64] + [0, 0]
  {
    AuthFrame(Password);
  }
}
