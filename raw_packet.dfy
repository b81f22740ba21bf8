/** The wire packet of src/packet/raw/mod.rs. A frame is
    `size ++ id ++ type ++ body ++ 00 00`, every integer four little-endian bytes,
    and `size` counts everything after the size field. */
module RawPackets {
  import opened Serialization
  import opened PacketTypes
  import opened Utf8
  import opened Packets

  /** `RawPacket`: the three integer fields as they travel, and the body bytes. */
  datatype RawPacket = RawPacket(sz: Int32, id: Int32, ty: Int32, body: seq<Byte>)

  /** Rust's `as i32` on a `usize`: keeps the low 32 bits, read as two's complement. */
  function AsI32(n: nat): (v: Int32)
    ensures Unsigned(v) == n % TwoTo32
    ensures n <= MaxInt32 ==> v == n
  {
    var m := n % TwoTo32;
    if m <= MaxInt32 then m else m - TwoTo32
  }

  /** `RawPacket::from`: the size is the body length plus 10 (id, type and the two
      terminator bytes) whenever that fits in an `i32`; id and body are copied; the
      type is its wire discriminant; and
      turning the result back into a `Packet` gives the packet back. */
  function From(p: Packet): (r: RawPacket)
    ensures |p.body| + 10 <= MaxInt32 ==> r.sz == |p.body| + 10
    ensures r.id == p.id && r.body == p.body
    ensures r.ty == ToI32(p.ty)
    ensures ValidUtf8(r.body) && ToPacket(r) == p
  {
    RawPacket(AsI32(|p.body| + 4 + 4 + 1 + 1), p.id, ToI32(p.ty), p.body)
  }

  /** The bytes `serialize` emits for `r`: four for each integer field, the body,
      and two zero bytes. */
  function Layout(r: RawPacket): (bytes: seq<Byte>)
    ensures |bytes| == |r.body| + 14
  {
    SerializeI32(r.sz) + SerializeI32(r.id) + SerializeI32(r.ty) + r.body + [0x00, 0x00]
  }

  /** `RawPacket::serialize`: the three encoded integers, then the buffer is extended
      with the body and then with the terminator. The result is the layout of `r`,
      and `deserialize` recovers `r` from it. */
  method Serialize(r: RawPacket) returns (packet: seq<Byte>)
    ensures packet == Layout(r)
    ensures |packet| == |r.body| + 14
    ensures Deserialize(packet) == r
  {
    packet := SerializeI32(r.sz) + SerializeI32(r.id) + SerializeI32(r.ty);
    packet := packet + r.body;
    packet := packet + [0x00, 0x00];
    DeserializeLayout(r);
  }

  /** `RawPacket::deserialize`: the first twelve bytes are the encodings of size,
      id and type, and the body is everything between them and the last two bytes.
      Neither the declared size nor the last two bytes are checked. Shorter input
      makes the Rust slices panic. */
  function Deserialize(packet: seq<Byte>): (r: RawPacket)
    requires |packet| >= 14
    ensures SerializeI32(r.sz) == packet[..4]
    ensures SerializeI32(r.id) == packet[4..8]
    ensures SerializeI32(r.ty) == packet[8..12]
    ensures r.body == packet[12..|packet| - 2]
  {
    SerializeDeserialize(packet[..4]);
    SerializeDeserialize(packet[4..8]);
    SerializeDeserialize(packet[8..12]);
    RawPacket(DeserializeI32(packet[..4]), DeserializeI32(packet[4..8]),
              DeserializeI32(packet[8..12]), packet[12..|packet| - 2])
  }

  /** `From<RawPacket> for Packet`: the id and the body are copied, and the type tag
      is mapped with the fallback rule, so it survives exactly when it is 0, 2 or 3.
      A body that is not UTF-8 makes the Rust `unwrap` panic. */
  function ToPacket(r: RawPacket): (p: Packet)
    requires ValidUtf8(r.body)
    ensures p.id == r.id && p.body == r.body
    ensures p.ty == FromI32(r.ty)
    ensures ToI32(p.ty) == r.ty <==> r.ty in {0, 2, 3}
  {
    FromI32RoundTrip(r.ty);
    Packet(r.id, FromI32(r.ty), r.body)
  }

  /** Deserializing a serialized raw packet gives it back. */
  lemma DeserializeLayout(r: RawPacket)
    ensures Deserialize(Layout(r)) == r
  {
    var b := Layout(r);
    assert b[..4] == SerializeI32(r.sz);
    assert b[4..8] == SerializeI32(r.id);
    assert b[8..12] == SerializeI32(r.ty);
    assert b[12..|b| - 2] == r.body;
    DeserializeSerialize(r.sz);
    DeserializeSerialize(r.id);
    DeserializeSerialize(r.ty);
  }

  /** Input of at least 14 bytes is reproduced by deserializing and serializing
      again exactly when it ends with the two zero terminator bytes: anything else
      there is dropped silently. */
  lemma LayoutDeserialize(packet: seq<Byte>)
    requires |packet| >= 14
    ensures Layout(Deserialize(packet)) == packet <==> packet[|packet| - 2..] == [0x00, 0x00]
  {
    var r := Deserialize(packet);
    var n := |packet|;
    var b := Layout(r);
    assert b[n - 2..] == [0x00, 0x00];
    if packet[n - 2..] == [0x00, 0x00] {
      assert packet[..4] + packet[4..8] == packet[..8];
      assert packet[..8] + packet[8..12] == packet[..12];
      assert packet[..12] + packet[12..n - 2] == packet[..n - 2];
      assert packet[..n - 2] + packet[n - 2..] == packet;
    }
  }

  /** The declared size does not influence what is decoded, and neither do the two
      trailing bytes: two inputs of the same length that agree on id, type and body
      bytes decode to the same id, type and body. */
  lemma DeserializeIgnoresSizeAndTerminator(packet: seq<Byte>, other: seq<Byte>)
    requires |packet| == |other| >= 14
    requires packet[4..|packet| - 2] == other[4..|other| - 2]
    ensures Deserialize(packet).id == Deserialize(other).id
    ensures Deserialize(packet).ty == Deserialize(other).ty
    ensures Deserialize(packet).body == Deserialize(other).body
  {
    var n := |packet|;
    forall i | 4 <= i < n - 2
      ensures packet[i] == other[i]
    {
      assert packet[i] == packet[4..n - 2][i - 4];
      assert other[i] == other[4..n - 2][i - 4];
    }
    assert packet[4..8] == other[4..8];
    assert packet[8..12] == other[8..12];
    assert packet[12..n - 2] == other[12..n - 2];
  }
}
