/** The integer codec of src/packet/serialization/mod.rs: a Rust `i32` to and from
    four little-endian bytes (`to_le_bytes` / `from_le_bytes`). */
module Serialization {

  /** One octet on the wire. */
  type Byte = b: int | 0 <= b < 0x100

  const MinInt32: int := -0x8000_0000
  const MaxInt32: int := 0x7FFF_FFFF
  const TwoTo32: int := 0x1_0000_0000

  /** A Rust `i32`. */
  type Int32 = v: int | MinInt32 <= v <= MaxInt32

  /** The 32-bit two's-complement pattern of `v`, read as an unsigned number. */
  function Unsigned(v: Int32): (u: nat)
    ensures u < TwoTo32
    ensures u % TwoTo32 == v % TwoTo32
  {
    if v < 0 then v + TwoTo32 else v
  }

  /** 256 to the power `n`: the count of distinct `n`-byte sequences. */
  function Pow256(n: nat): (p: nat)
    ensures p > 0
  {
    if n == 0 then 1 else 0x100 * Pow256(n - 1)
  }

  /** The unsigned number that bytes denote, least significant first. */
  function LittleEndian(b: seq<Byte>): (u: nat)
    ensures u < Pow256(|b|)
  {
    if b == [] then 0 else b[0] + 0x100 * LittleEndian(b[1..])
  }

  /** The `n` bytes, least significant first, that denote `u`. */
  function ToLittleEndian(u: nat, n: nat): (b: seq<Byte>)
    requires u < Pow256(n)
    ensures |b| == n
    ensures LittleEndian(b) == u
  {
    if n == 0 then [] else [u % 0x100] + ToLittleEndian(u / 0x100, n - 1)
  }

  /** `serialize_i32`: exactly four bytes, least significant first, holding the
      two's-complement pattern of `v`. */
  function SerializeI32(v: Int32): (b: seq<Byte>)
    ensures |b| == 4
    ensures LittleEndian(b) == Unsigned(v)
  {
    ToLittleEndian(Unsigned(v), 4)
  }

  /** `deserialize_i32`: total on every four bytes; the result's two's-complement
      pattern is the little-endian number the bytes denote. */
  function DeserializeI32(b: seq<Byte>): (v: Int32)
    requires |b| == 4
    ensures Unsigned(v) == LittleEndian(b)
  {
    var u := LittleEndian(b);
    if u <= MaxInt32 then u else u - TwoTo32
  }

  /** Two byte sequences of one length that denote the same number are equal. */
  lemma {:induction false} LittleEndianInjective(b: seq<Byte>, c: seq<Byte>)
    requires |b| == |c|
    requires LittleEndian(b) == LittleEndian(c)
    ensures b == c
  {
    if b != [] {
      var u := LittleEndian(b);
      assert b[0] == u % 0x100 == c[0];
      assert LittleEndian(b[1..]) == u / 0x100 == LittleEndian(c[1..]);
      LittleEndianInjective(b[1..], c[1..]);
      assert b == [b[0]] + b[1..];
      assert c == [c[0]] + c[1..];
    }
  }

  /** Two's complement is one-to-one on the `i32` range. */
  lemma UnsignedInjective(v: Int32, w: Int32)
    requires Unsigned(v) == Unsigned(w)
    ensures v == w
  {
  }

  /** Decoding an encoded `i32` gives it back. */
  lemma DeserializeSerialize(v: Int32)
    ensures DeserializeI32(SerializeI32(v)) == v
  {
    UnsignedInjective(DeserializeI32(SerializeI32(v)), v);
  }

  /** Every byte pattern is the encoding of the value it decodes to. */
  lemma SerializeDeserialize(b: seq<Byte>)
    requires |b| == 4
    ensures SerializeI32(DeserializeI32(b)) == b
  {
    LittleEndianInjective(SerializeI32(DeserializeI32(b)), b);
  }

  /** -1 is four 0xFF bytes; small non-negative values are one byte then zeros. */
  lemma SerializeExamples()
    ensures SerializeI32(-1) == [0xFF, 0xFF, 0xFF, 0xFF]
    ensures SerializeI32(1) == [0x01, 0, 0, 0]
    ensures SerializeI32(3) == [0x03, 0, 0, 0]
    ensures SerializeI32(18) == [0x12, 0, 0, 0]
    ensures SerializeI32(MinInt32) == [0, 0, 0, 0x80]
  {
    assert SerializeI32(-1) == ToLittleEndian(0xFFFF_FFFF, 4);
    assert SerializeI32(MinInt32) == ToLittleEndian(0x8000_0000, 4);
    SerializeSmall(1);
    SerializeSmall(3);
    SerializeSmall(18);
  }

  /** A value below 256 is its own low byte, followed by three zero bytes. */
  lemma SerializeSmall(v: Int32)
    requires 0 <= v < 0x100
    ensures SerializeI32(v) == [v, 0, 0, 0]
  {
    var b: seq<Byte> := [v, 0, 0, 0];
    assert LittleEndian(b[1..]) == 0 by {
      assert b[1..] == ToLittleEndian(0, 3);
    }
    LittleEndianInjective(SerializeI32(v), b);
  }
}
