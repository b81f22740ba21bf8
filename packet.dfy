/** The logical packet of src/packet/mod.rs: an id, a type tag and a UTF-8 body.
    `Packet::new` is this datatype's constructor, which stores its three arguments. */
module Packets {
  import opened Serialization
  import opened PacketTypes
  import opened Utf8

  datatype Packet = Packet(id: Int32, ty: PacketType, body: Utf8Bytes)
}
