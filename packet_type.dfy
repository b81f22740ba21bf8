/** The packet type tag of src/packet/type/mod.rs. The enum has three variants; the
    conversion from `i32` is total and sends every unknown value to `SDResponseValue`. */
module PacketTypes {
  import opened Serialization

  /** SERVERDATA_AUTH, SERVERDATA_EXECCOMMAND / SERVERDATA_AUTH_RESPONSE (one value
      for both), SERVERDATA_RESPONSE_VALUE. */
  datatype PacketType = SDAuth | SDExecCommandAndAuthResponse | SDResponseValue

  /** `From<PacketType> for i32`: the enum's discriminant (3, 2 or 0), which the
      conversion back recognises. */
  function ToI32(t: PacketType): (v: Int32)
    ensures v in {0, 2, 3}
    ensures FromI32(v) == t
  {
    match t
    case SDAuth => 3
    case SDExecCommandAndAuthResponse => 2
    case SDResponseValue => 0
  }

  /** `From<i32> for PacketType`: 3 and 2 select their variants, and exactly they
      do; every other value falls back to `SDResponseValue`. */
  function FromI32(v: Int32): (t: PacketType)
    ensures t == SDAuth <==> v == 3
    ensures t == SDExecCommandAndAuthResponse <==> v == 2
    ensures t == SDResponseValue <==> v != 3 && v != 2
  {
    match v
    case 3 => SDAuth
    case 2 => SDExecCommandAndAuthResponse
    case _ => SDResponseValue
  }

  /** The discriminants the enum declares. */
  lemma Discriminants()
    ensures ToI32(SDAuth) == 3
    ensures ToI32(SDExecCommandAndAuthResponse) == 2
    ensures ToI32(SDResponseValue) == 0
  {
  }

  /** Distinct variants have distinct discriminants. */
  lemma ToI32Injective(t: PacketType, u: PacketType)
    requires ToI32(t) == ToI32(u)
    ensures t == u
  {
  }

  /** The fallback loses information: a value survives the round trip through the
      enum exactly when it is one of the three discriminants. */
  lemma FromI32RoundTrip(v: Int32)
    ensures ToI32(FromI32(v)) == v <==> v in {0, 2, 3}
  {
  }
}
