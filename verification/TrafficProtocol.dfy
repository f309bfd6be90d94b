/**
 The length-prefixed traffic protocol (ltfp/runtime/protocol.go): one byte of type, four bytes of length, payload.

 The payload of every frame but Data is a JSON document. Here it is opaque: `accepts` says which documents decode to a
 valid payload of their type.
 */
module TrafficProtocol {
  import opened Basics
  import opened Bytes
  import opened Results
  import opened GrpcTunnel

  const FRAME_HEADER_SIZE := 5

  datatype FrameType = Open | OpenAck | Data | Close | CloseAck | Reset | Recycle | RecycleAck | Unknown(name: string)

  datatype TrafficFrame = TrafficFrame(frameType: FrameType, payload: bytes)

  datatype TrafficError =
    | UnknownFrameType | PayloadTooLarge | InvalidPayload
    | ReadFailed(cause: ReadError) | TunnelClosed
    | WriteFailed | ShortWrite | UnexpectedFrame

  function EncodeWireType(frameType: FrameType): Result<byte, TrafficError> {
    match frameType
    case Open => Ok(1)
    case OpenAck => Ok(2)
    case Data => Ok(3)
    case Close => Ok(4)
    case CloseAck => Ok(5)
    case Reset => Ok(6)
    case Recycle => Ok(7)
    case RecycleAck => Ok(8)
    case Unknown(_) => Err(UnknownFrameType)
  }

  function DecodeWireType(wireType: byte): Result<FrameType, TrafficError> {
    match wireType
    case 1 => Ok(Open)
    case 2 => Ok(OpenAck)
    case 3 => Ok(Data)
    case 4 => Ok(Close)
    case 5 => Ok(CloseAck)
    case 6 => Ok(Reset)
    case 7 => Ok(Recycle)
    case 8 => Ok(RecycleAck)
    case _ => Err(UnknownFrameType)
  }

  /** The two wire type tables are inverse to each other. */
  lemma WireTypesInverse(frameType: FrameType, wireType: byte)
    ensures EncodeWireType(frameType) == Ok(wireType) <==> DecodeWireType(wireType) == Ok(frameType)
  {
  }

  /** Which JSON documents decode to a valid payload of a frame type. */
  type Accepts = (FrameType, bytes) -> bool

  datatype Protocol = Protocol(maxFramePayload: nat, accepts: Accepts) {
    /** A frame WriteFrame takes: a known type, a valid payload, within the size limit. */
    predicate Writable(frame: TrafficFrame) {
      && EncodeWireType(frame.frameType).Ok?
      && (frame.frameType == Data || accepts(frame.frameType, frame.payload))
      && |frame.payload| <= maxFramePayload
    }
  }

  function EncodeHeader(frame: TrafficFrame): bytes
    requires EncodeWireType(frame.frameType).Ok?
  {
    [EncodeWireType(frame.frameType).value] + BE32(|frame.payload| % 0x1_0000_0000)
  }

  function EncodeFrame(frame: TrafficFrame): bytes
    requires EncodeWireType(frame.frameType).Ok?
  {
    EncodeHeader(frame) + frame.payload
  }

  /** A parsed frame with the bytes after it; a bad frame with the bytes left unread; or too few bytes. */
  datatype Parse = Parsed(frame: TrafficFrame, rest: bytes) | Bad(error: TrafficError, rest: bytes) | Short

  function ParseFrame(protocol: Protocol, wire: bytes): Parse {
    if |wire| < FRAME_HEADER_SIZE then Short
    else
      match DecodeWireType(wire[0])
      case Err(e) => Bad(e, wire[5..])
      case Ok(frameType) =>
        var payloadSize := FromBE32(wire[1..5]);
        if payloadSize > protocol.maxFramePayload then Bad(PayloadTooLarge, wire[5..])
        else if |wire| < FRAME_HEADER_SIZE + payloadSize then Short
        else
          var payload, rest := wire[5..5 + payloadSize], wire[5 + payloadSize..];
          if frameType == Data || protocol.accepts(frameType, payload)
          then Parsed(TrafficFrame(frameType, payload), rest)
          else Bad(InvalidPayload, rest)
  }

  /**
   Reading back a written frame: it succeeds, whatever follows it, exactly when the payload length fits the 32-bit
   length field.
   */
  lemma ParseInvertsEncode(protocol: Protocol, frame: TrafficFrame, rest: bytes)
    requires protocol.Writable(frame)
    ensures ParseFrame(protocol, EncodeFrame(frame) + rest) == Parsed(frame, rest)
            <==> |frame.payload| < 0x1_0000_0000
  {
    var wire := EncodeFrame(frame) + rest;
    var length := |frame.payload| % 0x1_0000_0000;
    assert wire[1..5] == BE32(length);
    BE32Bijective(length, wire[1..5]);
    WireTypesInverse(frame.frameType, wire[0]);
    if |frame.payload| < 0x1_0000_0000 {
      assert wire[5..5 + length] == frame.payload;
      assert wire[5 + length..] == rest;
    } else if |wire| >= 5 + length {
      assert |wire[5..5 + length]| != |frame.payload|;
    }
  }

  /** The parts of one byte, four bytes and more, also when only the first `n` are there. */
  lemma Slices(wireType: byte, length: bytes, payload: bytes, rest: bytes, n: nat)
    requires |length| == 4 && 5 <= n <= 5 + |payload|
    ensures var frame, size := [wireType] + length + payload, |payload|;
            && |frame| == 5 + size && frame[..n][0] == wireType && frame[..n][1..5] == length
            && (frame + rest)[0] == wireType && (frame + rest)[1..5] == length && (frame + rest)[5..] == payload + rest
            && (frame + rest)[5..5 + size] == payload && (frame + rest)[5 + size..] == rest
  {
  }

  lemma HeaderParses(frame: TrafficFrame, rest: bytes, n: nat)
    requires EncodeWireType(frame.frameType).Ok? && |frame.payload| < 0x1_0000_0000 && n <= |EncodeFrame(frame)|
    ensures var wire, size := EncodeFrame(frame) + rest, |frame.payload|;
            && |wire| >= FRAME_HEADER_SIZE + size && DecodeWireType(wire[0]) == Ok(frame.frameType)
            && FromBE32(wire[1..5]) == size
            && wire[5..] == frame.payload + rest && wire[5..5 + size] == frame.payload && wire[5 + size..] == rest
    ensures n >= 5 ==> var wire := EncodeFrame(frame)[..n];
                       DecodeWireType(wire[0]) == Ok(frame.frameType) && FromBE32(wire[1..5]) == |frame.payload|
  {
    var wireType, length := EncodeWireType(frame.frameType).value, BE32(|frame.payload|);
    assert EncodeFrame(frame) == [wireType] + length + frame.payload;
    Slices(wireType, length, frame.payload, rest, if n < 5 then 5 else n);
    BE32Bijective(|frame.payload|, length);
    WireTypesInverse(frame.frameType, wireType);
  }

  /**
   What any frame of a known type gives: it is read back if a writer takes it; if it is too large, its payload stays
   unread; if its payload is rejected, it is gone.
   */
  lemma ParseAnyFrame(protocol: Protocol, frame: TrafficFrame, rest: bytes)
    requires EncodeWireType(frame.frameType).Ok? && |frame.payload| < 0x1_0000_0000
    ensures ParseFrame(protocol, EncodeFrame(frame) + rest)
         == if protocol.Writable(frame) then Parsed(frame, rest)
            else if |frame.payload| > protocol.maxFramePayload then Bad(PayloadTooLarge, frame.payload + rest)
            else Bad(InvalidPayload, rest)
  {
    HeaderParses(frame, rest, 5);
  }

  /** A frame within the limit that is cut off is not read, and not mistaken for another one. */
  lemma ParseCutFrame(protocol: Protocol, frame: TrafficFrame, n: nat)
    requires EncodeWireType(frame.frameType).Ok? && |frame.payload| < 0x1_0000_0000 && n < |EncodeFrame(frame)|
    requires |frame.payload| <= protocol.maxFramePayload
    ensures ParseFrame(protocol, EncodeFrame(frame)[..n]) == Short
  {
    HeaderParses(frame, [], n);
  }

  /** A frame of an unknown type is refused after its header. */
  lemma ParseUnknownType(protocol: Protocol, wire: bytes)
    requires |wire| >= FRAME_HEADER_SIZE && forall frameType :: EncodeWireType(frameType) != Ok(wire[0])
    ensures ParseFrame(protocol, wire) == Bad(UnknownFrameType, wire[5..])
  {
    match DecodeWireType(wire[0]) {
      case Err(_) =>
      case Ok(frameType) => WireTypesInverse(frameType, wire[0]);
    }
  }

  // ---------------------------------------------------------------------------------------------
  // Reading and writing over a tunnel
  // ---------------------------------------------------------------------------------------------

  /** Writes everything or fails after a prefix of `sent` bytes. */
  method WriteFull(tunnel: GRPCH2Tunnel, payload: bytes) returns (error: Option<TrafficError>, ghost sent: nat)
    requires tunnel.Valid()
    modifies tunnel`outbound, tunnel`state, tunnel`failed, tunnel`inbound, tunnel`cut
    ensures tunnel.Valid()
    ensures sent <= |payload| && tunnel.Sent() == old(tunnel.Sent()) + payload[..sent]
    ensures error == None ==> sent == |payload| && tunnel.state == old(tunnel.state)
  {
    var remaining := payload;
    sent := 0;
    while |remaining| > 0
      invariant tunnel.Valid() && sent <= |payload| && remaining == payload[sent..]
      invariant tunnel.Sent() == old(tunnel.Sent()) + payload[..sent]
      invariant tunnel.state == old(tunnel.state)
      decreases |remaining|
    {
      var writtenSize, failure := tunnel.Write(remaining);
      if failure.Some? {
        return Some(WriteFailed), sent;
      }
      if writtenSize <= 0 {
        return Some(ShortWrite), sent;
      }
      assert payload[..sent] + remaining == payload;
      remaining := remaining[writtenSize..];
      sent := sent + writtenSize;
    }
    error := None;
  }

  /**
   Fills a buffer of `size` bytes, or fails having drained the tunnel. If the tunnel has a deadline and it passes, the
   `n` bytes read so far are gone, and the others may be; `expired` is then `Some(n)`.
   */
  method ReadFull(tunnel: GRPCH2Tunnel, size: nat)
    returns (data: Result<bytes, TrafficError>, ghost expired: Option<nat>)
    requires tunnel.Valid()
    modifies tunnel`pendingRead, tunnel`pendingReadOffset, tunnel`inbound, tunnel`cut, tunnel`state, tunnel`failed
    ensures tunnel.Valid()
    ensures expired == None ==>
              && tunnel.EndsWith() == old(tunnel.EndsWith())
              && if |old(tunnel.Unread())| >= size
                 then data == Ok(old(tunnel.Unread())[..size]) && tunnel.Unread() == old(tunnel.Unread())[size..]
                 else data == Err(EndError(old(tunnel.EndsWith()))) && tunnel.Unread() == []
    ensures expired.Some? ==>
              && tunnel.readDeadlineSet && data == Err(ReadFailed(Timeout)) && expired.value < size
              && Stopped(tunnel, old(tunnel.Unread()), old(tunnel.EndsWith()), expired.value)
  {
    var read: bytes := [];
    while |read| < size
      invariant tunnel.Valid() && tunnel.EndsWith() == old(tunnel.EndsWith())
      invariant |read| <= size && old(tunnel.Unread()) == read + tunnel.Unread()
      decreases size - |read|
    {
      ghost var rest := tunnel.Unread();
      var chunk, error;
      ghost var late;
      chunk, error, late := tunnel.Read(size - |read|);
      if error.Some? {
        SplitAt(read, rest);
        return Err(EndError(error.value)), if late then Some(|read|) else None;
      }
      Regroup(read, chunk, tunnel.Unread());
      read := read + chunk;
    }
    SplitAt(read, tunnel.Unread());
    data, expired := Ok(read), None;
  }

  /** Time ran out after `n` bytes: they are gone, and the others still come, unless the stream was cut off. */
  ghost predicate Stopped(tunnel: GRPCH2Tunnel, wire: bytes, end: ReadError, n: nat)
    reads tunnel
    requires tunnel.Valid()
  {
    n <= |wire| && (tunnel.Keeps(wire[n..], end) || (tunnel.cut && tunnel.Unread() == []))
  }

  lemma SplitAt(read: bytes, rest: bytes)
    ensures (read + rest)[..|read|] == read && (read + rest)[|read|..] == rest
  {
  }

  /** A tunnel that ends early counts as closed. */
  function EndError(cause: ReadError): TrafficError {
    if cause == EndOfFile then TunnelClosed else ReadFailed(cause)
  }

  /** Writes a whole frame or, having sent a prefix of `sent` bytes of it, fails; unwritable frames send nothing. */
  method WriteFrame(protocol: Protocol, tunnel: GRPCH2Tunnel, frame: TrafficFrame)
    returns (error: Option<TrafficError>, ghost sent: nat)
    requires tunnel.Valid()
    modifies tunnel`outbound, tunnel`state, tunnel`failed, tunnel`inbound, tunnel`cut
    ensures tunnel.Valid()
    ensures !protocol.Writable(frame) ==> error.Some? && tunnel.outbound == old(tunnel.outbound)
    ensures protocol.Writable(frame) ==>
              && sent <= |EncodeFrame(frame)| && tunnel.Sent() == old(tunnel.Sent()) + EncodeFrame(frame)[..sent]
              && (error == None ==> sent == |EncodeFrame(frame)|)
  {
    sent := 0;
    var wireType := EncodeWireType(frame.frameType);
    if wireType.Err? {
      return Some(wireType.error), 0;
    }
    if frame.frameType != Data && !protocol.accepts(frame.frameType, frame.payload) {
      return Some(InvalidPayload), 0;
    }
    if |frame.payload| > protocol.maxFramePayload {
      return Some(PayloadTooLarge), 0;
    }
    ghost var start := tunnel.Sent();
    error, sent := WriteFull(tunnel, EncodeHeader(frame));
    assert EncodeHeader(frame)[..sent] == EncodeFrame(frame)[..sent];
    if error.Some? {
      return;
    }
    ghost var more;
    error, more := WriteFull(tunnel, frame.payload);
    WriteInTwo(start, EncodeHeader(frame), frame.payload, more);
    sent := sent + more;
  }

  lemma WriteInTwo(start: bytes, header: bytes, payload: bytes, n: nat)
    requires n <= |payload|
    ensures start + header + payload[..n] == start + (header + payload)[..|header| + n]
  {
  }

  /** The bytes that ReadFrame has to see before it can decide about the frame at the start of `wire`. */
  function Needed(wire: bytes): nat {
    if |wire| < FRAME_HEADER_SIZE then FRAME_HEADER_SIZE else FRAME_HEADER_SIZE + FromBE32(wire[1..5])
  }

  /** Reads the payload after the header of `wire`. */
  method ReadPayload(tunnel: GRPCH2Tunnel, size: nat, ghost wire: bytes)
    returns (payload: Result<bytes, TrafficError>, ghost expired: Option<nat>)
    requires tunnel.Valid() && |wire| >= FRAME_HEADER_SIZE && tunnel.Unread() == wire[FRAME_HEADER_SIZE..]
    modifies tunnel`pendingRead, tunnel`pendingReadOffset, tunnel`inbound, tunnel`cut, tunnel`state, tunnel`failed
    ensures tunnel.Valid()
    ensures expired == None ==>
              && tunnel.EndsWith() == old(tunnel.EndsWith())
              && if |wire| >= FRAME_HEADER_SIZE + size
                 then payload == Ok(wire[5..5 + size]) && tunnel.Unread() == wire[5 + size..]
                 else payload == Err(EndError(old(tunnel.EndsWith()))) && tunnel.Unread() == []
    ensures expired.Some? ==>
              && tunnel.readDeadlineSet && payload == Err(ReadFailed(Timeout))
              && expired.value < FRAME_HEADER_SIZE + size
              && Stopped(tunnel, wire, old(tunnel.EndsWith()), expired.value)
  {
    payload, expired := ReadFull(tunnel, size);
    if |wire| >= FRAME_HEADER_SIZE + size {
      assert wire[FRAME_HEADER_SIZE..][..size] == wire[5..5 + size];
      assert wire[FRAME_HEADER_SIZE..][size..] == wire[5 + size..];
    }
    if expired.Some? {
      assert wire[FRAME_HEADER_SIZE..][expired.value..] == wire[FRAME_HEADER_SIZE + expired.value..];
      expired := Some(FRAME_HEADER_SIZE + expired.value);
    }
  }

  /**
   ReadFrame depends on the unread bytes only, not on the messages they arrive in. If time runs out, part of a frame,
   but not all of it, is gone.
   */
  method ReadFrame(protocol: Protocol, tunnel: GRPCH2Tunnel)
    returns (frame: Result<TrafficFrame, TrafficError>, ghost expired: Option<nat>)
    requires tunnel.Valid()
    modifies tunnel`pendingRead, tunnel`pendingReadOffset, tunnel`inbound, tunnel`cut, tunnel`state, tunnel`failed
    ensures tunnel.Valid()
    ensures expired == None ==>
              && tunnel.EndsWith() == old(tunnel.EndsWith())
              && match ParseFrame(protocol, old(tunnel.Unread()))
                 case Parsed(f, rest) => frame == Ok(f) && tunnel.Unread() == rest
                 case Bad(e, rest) => frame == Err(e) && tunnel.Unread() == rest
                 case Short => frame == Err(EndError(old(tunnel.EndsWith()))) && tunnel.Unread() == []
    ensures expired.Some? ==>
              && tunnel.readDeadlineSet && frame == Err(ReadFailed(Timeout))
              && expired.value < Needed(old(tunnel.Unread()))
              && Stopped(tunnel, old(tunnel.Unread()), old(tunnel.EndsWith()), expired.value)
  {
    ghost var wire := tunnel.Unread();
    var header;
    header, expired := ReadFull(tunnel, FRAME_HEADER_SIZE);
    if header.Err? {
      return Err(header.error), expired;
    }
    assert header.value[0] == wire[0] && header.value[1..] == wire[1..5];
    var frameType := DecodeWireType(header.value[0]);
    if frameType.Err? {
      return Err(frameType.error), None;
    }
    var payloadSize := FromBE32(header.value[1..]);
    if payloadSize > protocol.maxFramePayload {
      return Err(PayloadTooLarge), None;
    }
    var payload;
    payload, expired := ReadPayload(tunnel, payloadSize, wire);
    if payload.Err? {
      return Err(payload.error), expired;
    }
    if frameType.value != Data && !protocol.accepts(frameType.value, payload.value) {
      return Err(InvalidPayload), None;
    }
    frame := Ok(TrafficFrame(frameType.value, payload.value));
  }
}
