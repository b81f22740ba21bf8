/** The client session of src/net/mod.rs. The TCP connection becomes a `Stream`
    object: the bytes the server sends (fixed in advance), a read cursor into them,
    a log of the bytes the client writes, and whether writes succeed. The client
    owns the stream and a packet-id counter. */
module Net {
  import opened Serialization
  import opened PacketTypes
  import opened Utf8
  import opened Packets
  import opened PacketCodec

  datatype Option<T> = None | Some(value: T)

  /** The `std::io::Error`s the client returns: a transport failure, or the
      `ErrorKind::Other` error of a rejected authentication, which carries the
      password. */
  datatype Error = IoError | AuthRejected(password: Utf8Bytes)

  /** What a client operation ends with. `Panicked` stands for the places where the
      Rust code panics instead of returning. */
  datatype Result<T> = Ok(value: T) | Err(error: Error) | Panicked
  {
    /** The same failure, as a result of another type. */
    function AsFailure<U>(): (r: Result<U>)
      requires !Ok?
      ensures r.Err? == Err? && (Err? ==> r.error == error)
    {
      if Err? then Err(error) else Panicked
    }
  }

  /** Reading one packet at offset `at` of the bytes the server sends; the second
      component is where the next read starts. Four bytes of size prefix, then
      exactly that many more, or an I/O error that has used up the stream. A
      negative size makes `vec!` panic, and so does a frame `from_raw` cannot
      decode (size below 10, or a body that is not UTF-8). */
  function ReadFrame(input: seq<Byte>, at: nat): (res: (Result<Packet>, nat))
    requires at <= |input|
    ensures at <= res.1 <= |input|
    ensures res.0.Ok? ==> at + 14 <= res.1 && res.1 - at - 4 == DeserializeI32(input[at..at + 4])
    ensures res.0.Err? ==> res.0.error == IoError && res.1 == |input|
    ensures res.0.Ok? ==> Decodable(input[at..res.1]) && res.0.value == FromRaw(input[at..res.1])
  {
    if |input| - at < 4 then (Err(IoError), |input|)
    else
      var prefix := input[at..at + 4];
      var size := DeserializeI32(prefix);
      if size < 0 then (Panicked, at + 4)
      else if |input| - (at + 4) < size then (Err(IoError), |input|)
      else
        var data := input[at + 4..at + 4 + size];
        JoinSlices(input, at, at + 4, at + 4 + size);
        (DecodeFrame(prefix, data), at + 4 + size)
  }

  /** `from_raw_with_size` on a size prefix and the bytes read after it, with the
      panic of a frame it cannot decode as `Panicked`. */
  function DecodeFrame(packetSize: seq<Byte>, packetData: seq<Byte>): (r: Result<Packet>)
    requires |packetSize| == 4
    ensures !r.Err?
    ensures r.Ok? <==> Decodable(packetSize + packetData)
    ensures r.Ok? ==> r.value == FromRaw(packetSize + packetData)
  {
    if Decodable(packetSize + packetData) then
      FromRawWithSizeConcat(packetSize, packetData);
      Ok(FromRawWithSize(packetSize, packetData))
    else Panicked
  }

  /** The four ways a read ends, one per step of `read_packet`. */
  lemma ReadFrameCases(input: seq<Byte>, at: nat)
    requires at <= |input|
    ensures |input| < at + 4 ==> ReadFrame(input, at) == (Err(IoError), |input|)
    ensures at + 4 <= |input| && DeserializeI32(input[at..at + 4]) < 0
        ==> ReadFrame(input, at) == (Panicked, at + 4)
    ensures at + 4 <= |input| && 0 <= DeserializeI32(input[at..at + 4])
        && |input| < at + 4 + DeserializeI32(input[at..at + 4])
        ==> ReadFrame(input, at) == (Err(IoError), |input|)
    ensures at + 4 <= |input| && 0 <= DeserializeI32(input[at..at + 4])
        && at + 4 + DeserializeI32(input[at..at + 4]) <= |input|
        ==> (ReadFrame(input, at)
             == (DecodeFrame(input[at..at + 4], input[at + 4..at + 4 + DeserializeI32(input[at..at + 4])]),
                 at + 4 + DeserializeI32(input[at..at + 4])))
  {
  }

  /** Two adjacent slices joined are the slice that spans both. */
  lemma JoinSlices(input: seq<Byte>, i: nat, j: nat, k: nat)
    requires i <= j <= k <= |input|
    ensures input[i..j] + input[j..k] == input[i..k]
  {
  }

  /** The exchange after the authentication packet is written: read one packet and
      ignore it, read the real response, and reject the password exactly when the
      response's id is -1. A failed read ends the exchange with its failure. */
  function AuthExchange(input: seq<Byte>, at: nat, password: Utf8Bytes): (res: (Result<()>, nat))
    requires at <= |input|
    ensures at <= res.1 <= |input|
    ensures res.0.Err? && res.0.error.AuthRejected? ==> res.0.error.password == password
  {
    var (first, mid) := ReadFrame(input, at);
    if !first.Ok? then (first.AsFailure(), mid)
    else
      var (response, end) := ReadFrame(input, mid);
      if !response.Ok? then (response.AsFailure(), end)
      else if response.value.id == -1 then (Err(AuthRejected(password)), end)
      else (Ok(()), end)
  }

  /** A read fails with an I/O error exactly when the stream ends inside the size
      prefix or inside the bytes the prefix announces. */
  lemma ReadFrameFailsIffShort(input: seq<Byte>, at: nat)
    requires at <= |input|
    ensures ReadFrame(input, at).0.Err?
        <==> |input| < at + 4 || |input| < at + 4 + DeserializeI32(input[at..at + 4])
  {
  }

  /** A read returns a packet exactly when the size prefix is present and not
      negative, the bytes it announces are present, and the whole frame is one
      `from_raw` can decode; the packet is then that decoding. */
  lemma ReadFrameOkIffDecodable(input: seq<Byte>, at: nat)
    requires at <= |input|
    ensures ReadFrame(input, at).0.Ok?
        <==> (at + 4 <= |input|
              && 0 <= DeserializeI32(input[at..at + 4])
              && at + 4 + DeserializeI32(input[at..at + 4]) <= |input|
              && Decodable(input[at..at + 4 + DeserializeI32(input[at..at + 4])]))
  {
    if at + 4 <= |input| {
      var size := DeserializeI32(input[at..at + 4]);
      if 0 <= size && at + 4 + size <= |input| {
        assert input[at..at + 4] + input[at + 4..at + 4 + size] == input[at..at + 4 + size];
      }
    }
  }

  /** A frame written by `serialize` is read back as the same packet, and the read
      consumes exactly that frame, whatever precedes or follows it. */
  lemma ReadFrameSerialized(input: seq<Byte>, at: nat, p: Packet)
    requires |p.body| + 10 <= MaxInt32
    requires at + |Serialize(p)| <= |input|
    requires input[at..at + |Serialize(p)|] == Serialize(p)
    ensures ReadFrame(input, at) == (Ok(p), at + |Serialize(p)|)
  {
    SliceParts(input, at, Serialize(p));
    FromRawWithSizeSerialize(p);
  }

  /** Bytes found at `at` split at four into their first four and the rest. */
  lemma SliceParts(input: seq<Byte>, at: nat, bytes: seq<Byte>)
    requires 4 <= |bytes| && at + |bytes| <= |input|
    requires input[at..at + |bytes|] == bytes
    ensures input[at..at + 4] == bytes[..4]
    ensures input[at + 4..at + |bytes|] == bytes[4..]
  {
    assert input[at..at + 4] == input[at..at + |bytes|][..4];
    assert input[at + 4..at + |bytes|] == input[at..at + |bytes|][4..];
  }

  /** A stream that closes after the size prefix but before the end of the frame
      gives an I/O error and no packet, having consumed everything. */
  lemma ReadFrameTruncated(input: seq<Byte>, at: nat, p: Packet)
    requires |p.body| + 10 <= MaxInt32
    requires at + 4 <= |input| < at + |Serialize(p)|
    requires input[at..] == Serialize(p)[..|input| - at]
    ensures ReadFrame(input, at) == (Err(IoError), |input|)
  {
    assert input[at..at + 4] == Serialize(p)[..4];
  }

  /** Once the first read has returned a packet, whatever it holds, and the next
      bytes are a frame written by `serialize`, authentication is rejected exactly
      when that second frame has id -1; both frames are consumed. */
  lemma AuthExchangeOutcome(input: seq<Byte>, at: nat, mid: nat, first: Packet,
                            response: Packet, password: Utf8Bytes)
    requires |response.body| + 10 <= MaxInt32
    requires at <= mid && mid + |Serialize(response)| <= |input|
    requires ReadFrame(input, at) == (Ok(first), mid)
    requires input[mid..mid + |Serialize(response)|] == Serialize(response)
    ensures AuthExchange(input, at, password)
         == (if response.id == -1 then Err(AuthRejected(password)) else Ok(()),
             mid + |Serialize(response)|)
  {
    ReadFrameSerialized(input, mid, response);
  }

  /** A server reply made of two frames written by `serialize`: the exchange ends
      with the verdict on the second and consumes the whole reply. */
  lemma AuthExchangeReply(first: Packet, response: Packet, password: Utf8Bytes)
    requires |first.body| + 10 <= MaxInt32 && |response.body| + 10 <= MaxInt32
    ensures AuthExchange(Serialize(first) + Serialize(response), 0, password)
         == (if response.id == -1 then Err(AuthRejected(password)) else Ok(()),
             |Serialize(first)| + |Serialize(response)|)
  {
    ReadFirstOfReply(first, response);
    ReadSecondOfReply(first, response);
    AuthExchangeTwoReads(Serialize(first) + Serialize(response), 0, first, response, password);
  }

  /** The exchange on an input whose two reads return `first` and then `response`. */
  lemma AuthExchangeTwoReads(input: seq<Byte>, at: nat, first: Packet, response: Packet, password: Utf8Bytes)
    requires at <= |input|
    requires ReadFrame(input, at).0 == Ok(first)
    requires ReadFrame(input, ReadFrame(input, at).1).0 == Ok(response)
    ensures AuthExchange(input, at, password)
         == (if response.id == -1 then Err(AuthRejected(password)) else Ok(()),
             ReadFrame(input, ReadFrame(input, at).1).1)
  {
  }

  /** The second read of a two-frame reply returns the second packet. */
  lemma ReadSecondOfReply(first: Packet, response: Packet)
    requires |response.body| + 10 <= MaxInt32
    ensures ReadFrame(Serialize(first) + Serialize(response), |Serialize(first)|)
         == (Ok(response), |Serialize(first)| + |Serialize(response)|)
  {
    ReadAfterPrefix(Serialize(first), response);
  }

  /** A frame written by `serialize` after any bytes is read back whole. */
  lemma ReadAfterPrefix(prefix: seq<Byte>, p: Packet)
    requires |p.body| + 10 <= MaxInt32
    ensures ReadFrame(prefix + Serialize(p), |prefix|) == (Ok(p), |prefix| + |Serialize(p)|)
  {
    var input := prefix + Serialize(p);
    assert input[|prefix|..|prefix| + |Serialize(p)|] == Serialize(p);
    ReadFrameSerialized(input, |prefix|, p);
  }

  /** The first read of a two-frame reply returns the first packet. */
  lemma ReadFirstOfReply(first: Packet, response: Packet)
    requires |first.body| + 10 <= MaxInt32
    ensures ReadFrame(Serialize(first) + Serialize(response), 0) == (Ok(first), |Serialize(first)|)
  {
    var reply := Serialize(first) + Serialize(response);
    assert reply[..|Serialize(first)|] == Serialize(first);
    ReadFrameSerialized(reply, 0, first);
  }

  /** A failure of either read is the failure of the whole exchange. */
  lemma AuthExchangePropagates(input: seq<Byte>, at: nat, password: Utf8Bytes)
    requires at <= |input|
    ensures !ReadFrame(input, at).0.Ok?
        ==> AuthExchange(input, at, password) == (ReadFrame(input, at).0.AsFailure(), ReadFrame(input, at).1)
    ensures ReadFrame(input, at).0.Ok? && !ReadFrame(input, ReadFrame(input, at).1).0.Ok?
        ==> AuthExchange(input, at, password).0 == ReadFrame(input, ReadFrame(input, at).1).0.AsFailure()
  {
  }

  /** The connection: the bytes the server sends, the position up to which the
      client has read them, the bytes the client has written, and whether writes
      succeed. */
  class Stream {
    const input: seq<Byte>
    var cursor: nat
    var output: seq<Byte>
    const writable: bool

    ghost predicate Valid()
      reads this
    {
      cursor <= |input|
    }

    constructor (input: seq<Byte>, writable: bool)
      ensures Valid()
      ensures this.input == input && this.writable == writable
      ensures cursor == 0 && output == []
    {
      this.input := input;
      this.writable := writable;
      cursor := 0;
      output := [];
    }

    /** `read_exact`: the next `n` bytes, or an error when the stream ends first, in
        which case every remaining byte has been consumed. */
    method ReadExact(n: nat) returns (bytes: Option<seq<Byte>>)
      requires Valid()
      modifies this`cursor
      ensures Valid()
      ensures old(cursor) + n <= |input| ==>
                bytes == Some(input[old(cursor)..old(cursor) + n]) && cursor == old(cursor) + n
      ensures |input| < old(cursor) + n ==> bytes == None && cursor == |input|
    {
      if cursor + n <= |input| {
        bytes := Some(input[cursor..cursor + n]);
        cursor := cursor + n;
      } else {
        bytes := None;
        cursor := |input|;
      }
    }

    /** `write`: the whole buffer is sent, or nothing and an error. */
    method Write(bytes: seq<Byte>) returns (ok: bool)
      modifies this`output
      ensures ok == writable
      ensures output == if writable then old(output) + bytes else old(output)
    {
      ok := writable;
      if ok {
        output := output + bytes;
      }
    }
  }

  /** `Client`: the packet-id counter and the stream. The ghost `issued` lists the
      packets made so far; the k-th of them has id k - 1. */
  class Client {
    var packetIdx: Int32
    const stream: Stream
    ghost var issued: seq<Packet>

    ghost predicate Valid()
      reads this, stream
    {
      stream.Valid() &&
      packetIdx == |issued| &&
      forall i :: 0 <= i < |issued| ==> issued[i].id == i
    }

    /** `Client::new` once the connection is open: the counter starts at 0. */
    constructor (stream: Stream)
      requires stream.Valid()
      ensures Valid()
      ensures this.stream == stream && packetIdx == 0 && issued == []
    {
      this.stream := stream;
      packetIdx := 0;
      issued := [];
    }

    /** `new_packet`: a packet carrying the current counter as its id, after which
        the counter moves on by one. At `i32::MAX` the Rust increment overflows. */
    method NewPacket(ty: PacketType, body: Utf8Bytes) returns (p: Packet)
      requires Valid() && packetIdx < MaxInt32
      modifies this
      ensures Valid()
      ensures p == Packet(old(packetIdx), ty, body)
      ensures packetIdx == old(packetIdx) + 1 && issued == old(issued) + [p]
    {
      p := Packet(packetIdx, ty, body);
      packetIdx := packetIdx + 1;
      issued := issued + [p];
    }

    /** `read_packet`: reads the size prefix, then exactly the bytes it announces, as
        the reading function describes. */
    method ReadPacket() returns (r: Result<Packet>)
      requires Valid()
      modifies stream`cursor
      ensures Valid()
      ensures (r, stream.cursor) == ReadFrame(stream.input, old(stream.cursor))
    {
      ghost var at := stream.cursor;
      ReadFrameCases(stream.input, at);
      var packetSize := stream.ReadExact(4);
      if packetSize.None? {
        return Err(IoError);
      }
      var size := DeserializeI32(packetSize.value);
      if size < 0 {
        // `size as usize` is above `isize::MAX`: `vec!` panics
        return Panicked;
      }
      var packetData := stream.ReadExact(size);
      if packetData.None? {
        return Err(IoError);
      }
      // the slices of `deserialize` or the UTF-8 `unwrap` panic on a frame that
      // does not decode
      assert packetSize.value == stream.input[at..at + 4];
      assert packetData.value == stream.input[at + 4..at + 4 + size];
      r := DecodeFrame(packetSize.value, packetData.value);
    }

    /** `send_packet`: allocates the next packet and writes its frame; returns its id,
        or the write error, with the counter advanced either way. */
    method SendPacket(ty: PacketType, body: Utf8Bytes) returns (r: Result<Int32>)
      requires Valid() && packetIdx < MaxInt32
      modifies this, stream`output
      ensures Valid()
      ensures packetIdx == old(packetIdx) + 1
      ensures issued == old(issued) + [Packet(old(packetIdx), ty, body)]
      ensures stream.output
           == old(stream.output) + if stream.writable then Serialize(Packet(old(packetIdx), ty, body)) else []
      ensures r == if stream.writable then Ok(old(packetIdx)) else Err(IoError)
    {
      var packet := NewPacket(ty, body);
      var ok := stream.Write(Serialize(packet));
      if !ok {
        return Err(IoError);
      }
      r := Ok(packet.id);
    }

    /** `exec_command`: sends the command as an SDExecCommandAndAuthResponse packet. */
    method ExecCommand(body: Utf8Bytes) returns (r: Result<Int32>)
      requires Valid() && packetIdx < MaxInt32
      modifies this, stream`output
      ensures Valid()
      ensures packetIdx == old(packetIdx) + 1
      ensures issued == old(issued) + [Packet(old(packetIdx), SDExecCommandAndAuthResponse, body)]
      ensures stream.output
           == old(stream.output)
            + if stream.writable then Serialize(Packet(old(packetIdx), SDExecCommandAndAuthResponse, body)) else []
      ensures r == if stream.writable then Ok(old(packetIdx)) else Err(IoError)
    {
      r := SendPacket(SDExecCommandAndAuthResponse, body);
    }

    /** `authenticate`: writes one SDAuth packet holding the password, then runs the
        two-read exchange. A write error ends it before any read. */
    method Authenticate(password: Utf8Bytes) returns (r: Result<()>)
      requires Valid() && packetIdx < MaxInt32
      modifies this, stream`output, stream`cursor
      ensures Valid()
      ensures packetIdx == old(packetIdx) + 1
      ensures issued == old(issued) + [Packet(old(packetIdx), SDAuth, password)]
      ensures stream.writable ==>
                stream.output == old(stream.output) + Serialize(Packet(old(packetIdx), SDAuth, password)) &&
                (r, stream.cursor) == AuthExchange(stream.input, old(stream.cursor), password)
      ensures !stream.writable ==>
                r == Err(IoError) && stream.output == old(stream.output) && stream.cursor == old(stream.cursor)
    {
      var packet := NewPacket(SDAuth, password);
      var ok := stream.Write(Serialize(packet));
      if !ok {
        return Err(IoError);
      }
      var first := ReadPacket();
      if !first.Ok? {
        return first.AsFailure();
      }
      var response := ReadPacket();
      if !response.Ok? {
        return response.AsFailure();
      }
      if response.value.id == -1 {
        return Err(AuthRejected(password));
      }
      r := Ok(());
    }
  }

  /** A fresh client against a server that answers the authentication packet (id 0)
      with an empty SDExecCommandAndAuthResponse packet and then a response with
      id 0 when it accepts the password, -1 when it rejects it. */
  method AuthenticateScenario(password: Utf8Bytes, accept: bool) returns (r: Result<()>)
    ensures r == if accept then Ok(()) else Err(AuthRejected(password))
  {
    var first := Packet(0, SDExecCommandAndAuthResponse, []);
    var response := Packet(if accept then 0 else -1, SDExecCommandAndAuthResponse, []);
    var reply := Serialize(first) + Serialize(response);
    var stream := new Stream(reply, true);
    var client := new Client(stream);
    AuthExchangeReply(first, response, password);
    r := client.Authenticate(password);
  }

  /** The repository's command test: after a successful authentication on a fresh
      client, the first command gets id 1. */
  method SendCommandScenario(password: Utf8Bytes, command: Utf8Bytes) returns (id: Result<Int32>)
    ensures id == Ok(1)
  {
    var first := Packet(0, SDExecCommandAndAuthResponse, []);
    var response := Packet(0, SDExecCommandAndAuthResponse, []);
    var reply := Serialize(first) + Serialize(response);
    var stream := new Stream(reply, true);
    var client := new Client(stream);
    AuthExchangeReply(first, response, password);
    var auth := client.Authenticate(password);
    assert auth == Ok(());
    id := client.ExecCommand(command);
  }
}
