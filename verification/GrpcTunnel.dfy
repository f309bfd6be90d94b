/**
 The gRPC tunnel adapter (ltfp/transport/grpcbinding/tunnel.go): a byte stream made of arbitrary messages, with the
 unread rest of the last message kept aside.
 */
module GrpcTunnel {
  import opened Bytes
  import opened Results

  datatype TunnelState = Idle | Reserved | Active | Closed | Broken

  /** What the underlying stream answers once all its messages have been received. */
  datatype StreamEnd = PeerClosed | StreamFailed

  datatype ReadError = EndOfFile | TunnelBroken | Timeout

  datatype WriteError = ClosedTunnel | BrokenTunnel | OutOfTime

  class GRPCH2Tunnel {
    // The underlying stream: messages not received yet, how it ends, messages sent.
    var inbound: seq<bytes>
    var streamEnd: StreamEnd
    var outbound: seq<bytes>

    var state: TunnelState
    var failed: bool  // lastError is set
    var cut: bool  // a deadline passed while a call waited for the stream, which closed it for good
    var readDeadlineSet: bool  // a read deadline is set, which may pass at any moment
    var pendingRead: bytes
    var pendingReadOffset: nat

    /** The pending buffer is released as soon as it is used up. */
    ghost predicate Valid()
      reads this
    {
      && (if pendingRead == [] then pendingReadOffset == 0 else pendingReadOffset < |pendingRead|)
      && (state in {Closed, Broken} ==> failed) && (cut ==> inbound == [])
    }

    /** The rest of the message being read. */
    ghost function Pending(): bytes
      reads this
      requires Valid()
    {
      pendingRead[pendingReadOffset..]
    }

    /** All bytes that reads can still return, whatever the messages they travel in. */
    ghost function Unread(): bytes
      reads this
      requires Valid()
    {
      Pending() + if state in {Closed, Broken} then [] else Join(inbound)
    }

    /** How reading ends once `Unread` is empty. */
    ghost function EndsWith(): ReadError
      reads this
    {
      match state
      case Closed => EndOfFile
      case Broken => TunnelBroken
      case _ =>
        if cut then Timeout
        else
          match streamEnd
          case PeerClosed => EndOfFile
          case StreamFailed => TunnelBroken
    }

    /** Reading can still return exactly `unread`, and ends with `end`. */
    ghost predicate Keeps(unread: bytes, end: ReadError)
      reads this
      requires Valid()
    {
      Unread() == unread && EndsWith() == end
    }

    ghost function Sent(): bytes
      reads this
    {
      Join(outbound)
    }

    constructor (inbound: seq<bytes>, streamEnd: StreamEnd)
      ensures Valid() && state == Idle && !failed && Sent() == [] && !readDeadlineSet && !cut
      ensures Unread() == Join(inbound) && this.streamEnd == streamEnd
    {
      this.inbound, this.streamEnd, outbound := inbound, streamEnd, [];
      state, failed, cut, readDeadlineSet := Idle, false, false, false;
      pendingRead, pendingReadOffset := [], 0;
    }

    method SetReadDeadline(isSet: bool)
      requires Valid()
      modifies this`readDeadlineSet
      ensures Valid() && readDeadlineSet == isSet
    {
      readDeadlineSet := isSet;
    }

    /** Copies pending bytes into a buffer of `size` bytes; None if there are none. */
    method CopyFromPendingRead(size: nat) returns (data: Option<bytes>)
      requires Valid() && size > 0
      modifies this`pendingRead, this`pendingReadOffset
      ensures Valid()
      ensures if old(Pending()) == [] then data == None && pendingRead == old(pendingRead)
              else && data.Some? && 0 < |data.value| <= size && old(Pending()) == data.value + Pending()
    {
      if pendingRead == [] {
        return None;
      }
      var readSize := Min(size, |pendingRead| - pendingReadOffset);
      data := Some(pendingRead[pendingReadOffset..pendingReadOffset + readSize]);
      pendingReadOffset := pendingReadOffset + readSize;
      if pendingReadOffset >= |pendingRead| {
        pendingRead, pendingReadOffset := [], 0;
      }
    }

    /**
     Receives the next message, or records how the stream ended. If a deadline is set it may have passed already, which
     changes nothing, or pass while the call waits, which closes the stream.
     */
    method Receive() returns (payload: bytes, error: Option<ReadError>, ghost expired: bool)
      requires Valid() && state !in {Closed, Broken}
      modifies this`inbound, this`cut, this`state, this`failed
      ensures Valid()
      ensures expired ==> && readDeadlineSet && payload == [] && error == Some(Timeout) && state == old(state)
                          && (cut || (inbound == old(inbound) && cut == old(cut)))
      ensures !expired ==> EndsWith() == old(EndsWith()) && cut == old(cut)
      ensures !expired ==>
                if old(inbound) == [] then payload == [] && error == Some(EndsWith()) && inbound == []
                else error == None && state == old(state) && old(inbound) == [payload] + inbound
    {
      var passed, passes: bool := *, *;
      expired := readDeadlineSet && (passed || passes);
      if readDeadlineSet && passed {
        return [], Some(Timeout), true;
      }
      if cut {
        return [], Some(Timeout), expired;
      }
      if readDeadlineSet && passes {
        inbound, cut := [], true;
        return [], Some(Timeout), true;
      }
      if inbound == [] {
        match streamEnd {
          case PeerClosed =>
            state, failed := Closed, true;
            return [], Some(EndOfFile), false;
          case StreamFailed =>
            state, failed := Broken, true;
            return [], Some(TunnelBroken), false;
        }
      }
      payload, error := inbound[0], None;
      inbound := inbound[1..];
    }

    /** Hands out the first bytes of a nonempty message and keeps the rest pending. */
    method Split(payload: bytes, size: nat) returns (data: bytes)
      requires Valid() && Pending() == [] && payload != [] && size > 0
      modifies this`pendingRead, this`pendingReadOffset
      ensures Valid() && data != [] && |data| <= size && payload == data + Pending()
    {
      var readSize := Min(size, |payload|);
      if readSize < |payload| {
        pendingRead, pendingReadOffset := payload[readSize..], 0;
      }
      data := payload[..readSize];
    }

    /**
     A read into a nonempty buffer returns a nonempty prefix of the unread bytes and leaves the rest, or, when nothing
     is left, ends as `EndsWith` says; an empty buffer changes nothing. If a deadline is set and it passes, a read
     without pending bytes times out: nothing is taken off the stream, unless the stream is closed with all it held.
     */
    method Read(size: nat) returns (data: bytes, error: Option<ReadError>, ghost expired: bool)
      requires Valid()
      modifies this`pendingRead, this`pendingReadOffset, this`inbound, this`cut, this`state, this`failed
      ensures Valid() && |data| <= size
      ensures size == 0 ==> data == [] && error == None
      ensures !expired ==> old(Unread()) == data + Unread() && EndsWith() == old(EndsWith())
      ensures size > 0 && !expired ==>
                if old(Unread()) == [] then data == [] && error == Some(old(EndsWith()))
                else data != [] && error == None
      ensures expired ==> && readDeadlineSet && size > 0 && old(Pending()) == [] && old(state) !in {Closed, Broken}
                          && data == [] && error == Some(Timeout)
                          && (Keeps(old(Unread()), old(EndsWith())) || (cut && Unread() == []))
    {
      data, error, expired := [], None, false;
      if size == 0 {
        return;
      }
      ghost var unread, end, pending := Unread(), EndsWith(), Pending();
      var done := false;
      while !done
        invariant Valid() && if done then Answers(size, unread, end, data, error, expired) else Keeps(unread, end)
        invariant !done || expired ==> Pending() == pending && state == old(state)
        invariant expired ==> Pending() == [] && state !in {Closed, Broken}
        decreases !done, |inbound|
      {
        done, data, error, expired := ReadOnce(size);
      }
    }

    /** What a read into a buffer of `size` bytes gave that found `unread` bytes and the end `end`. */
    ghost predicate Answers(size: nat, unread: bytes, end: ReadError, data: bytes, error: Option<ReadError>,
                            expired: bool)
      reads this
      requires Valid()
    {
      if expired then
        readDeadlineSet && data == [] && error == Some(Timeout) && (Keeps(unread, end) || (cut && Unread() == []))
      else
        && unread == data + Unread() && |data| <= size && EndsWith() == end
        && if unread == [] then data == [] && error == Some(end) else data != [] && error == None
    }

    /** One round of the loop of Read; it goes on after an empty message. */
    method ReadOnce(size: nat) returns (done: bool, data: bytes, error: Option<ReadError>, ghost expired: bool)
      requires Valid() && size > 0
      modifies this`pendingRead, this`pendingReadOffset, this`inbound, this`cut, this`state, this`failed
      ensures Valid()
      ensures done ==> Answers(size, old(Unread()), old(EndsWith()), data, error, expired)
      ensures !done ==> Keeps(old(Unread()), old(EndsWith())) && |inbound| < |old(inbound)|
      ensures !done || expired ==>
                Pending() == old(Pending()) == [] && state == old(state) && state !in {Closed, Broken}
    {
      done, expired := true, false;
      var copied := CopyFromPendingRead(size);
      if copied.Some? {
        return true, copied.value, None, false;
      }
      if state == Closed {
        return true, [], Some(EndOfFile), false;
      }
      if state == Broken {
        return true, [], Some(TunnelBroken), false;
      }
      var payload;
      payload, error, expired := Receive();
      if error.Some? {
        return true, [], error, expired;
      }
      if payload == [] {
        return false, [], None, false;
      }
      data := Split(payload, size);
    }

    /**
     Sends all of `payload` as one message, or nothing. A tunnel that the stream reports as closed is closed from then
     on, one for which sending fails is broken, and then every further write fails in the same way; running out of time
     changes no state, but if it happens while the write waits for the stream it closes that in both directions.
     */
    method Write(payload: bytes) returns (written: nat, error: Option<WriteError>)
      requires Valid()
      modifies this`outbound, this`state, this`failed, this`inbound, this`cut
      ensures Valid()
      ensures error == None ==> && written == |payload| && Sent() == old(Sent()) + payload
                                && state == old(state) && failed == old(failed)
      ensures error.Some? ==> written == 0 && outbound == old(outbound) && payload != []
      ensures error == Some(ClosedTunnel) ==> state == Closed && failed
      ensures error == Some(BrokenTunnel) ==> state == Broken && failed
      ensures error == Some(OutOfTime) ==> state == old(state) && failed == old(failed) && state !in {Closed, Broken}
      ensures old(state) in {Closed, Broken} ==> state == old(state) && (error == None <==> payload == [])
      ensures old(cut) && payload != [] && old(state) !in {Closed, Broken} ==> error == Some(OutOfTime) && cut
      ensures (error == Some(OutOfTime) && cut) || (inbound == old(inbound) && cut == old(cut))
    {
      if payload == [] {
        return 0, None;
      }
      if state == Closed {
        return 0, Some(ClosedTunnel);
      }
      if state == Broken {
        return 0, Some(BrokenTunnel);
      }
      if cut {
        return 0, Some(OutOfTime);
      }
      var outcome: nat :| outcome < 5;  // sent, out of time, out of time while sending, closed, or failed otherwise
      if outcome == 0 {
        outbound := outbound + [payload];
        JoinSnoc(old(outbound), payload);
        return |payload|, None;
      }
      if outcome == 3 {
        state, failed := Closed, true;
        return 0, Some(ClosedTunnel);
      }
      if outcome == 4 {
        state, failed := Broken, true;
        return 0, Some(BrokenTunnel);
      }
      if outcome == 2 {
        inbound, cut := [], true;
      }
      return 0, Some(OutOfTime);
    }

    /** Flush succeeds exactly when no received byte is still unread locally. */
    method Flush() returns (ok: bool)
      requires Valid()
      ensures ok <==> Pending() == []
    {
      ok := |pendingRead| == 0;
    }

    /** Recyclable: alive, never failed, not cut off, and no received byte of the last traffic is left. */
    method Recyclable() returns (r: bool)
      requires Valid()
      ensures r <==> !failed && !cut && Pending() == []
      ensures r ==> state !in {Closed, Broken}
    {
      if state == Broken || state == Closed {
        return false;
      }
      if failed || cut {
        return false;
      }
      r := |pendingRead| == 0;
    }
  }
}
