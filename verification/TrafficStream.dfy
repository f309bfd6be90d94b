/**
 The framed byte stream over a tunnel (ltfp/runtime/stream.go) and the property the whole data path is there for:
 it is a pipe.
 */
module TrafficStream {
  import opened Basics
  import opened Bytes
  import opened Results
  import opened GrpcTunnel
  import opened TrafficProtocol

  // ---------------------------------------------------------------------------------------------
  // Reading as a function of the unread wire bytes
  // ---------------------------------------------------------------------------------------------

  datatype ReadResult = Data(data: bytes) | EndOfStream | ResetByPeer(body: bytes) | Failed(error: TrafficError)

  /** The reading side: bytes of the current Data frame not handed out, terminal flags, unread wire bytes. */
  datatype Reader = Reader(pending: bytes, reachedEOF: bool, reset: Option<bytes>, wire: bytes)

  /** One Read with a buffer of `size` bytes; `shortError` is what a tunnel that ends early is reported as. */
  function ReadSpec(protocol: Protocol, shortError: TrafficError, reader: Reader, size: nat): (Reader, ReadResult) {
    if size == 0 then (reader, ReadResult.Data([]))
    else if reader.pending != [] then
      var n := Min(size, |reader.pending|);
      (reader.(pending := reader.pending[n..]), ReadResult.Data(reader.pending[..n]))
    else if reader.reachedEOF then (reader, EndOfStream)
    else if reader.reset.Some? then (reader, ResetByPeer(reader.reset.value))
    else NextFrame(protocol, shortError, reader, size)
  }

  /** The frame loop of Read: empty Data frames are skipped. */
  function NextFrame(protocol: Protocol, shortError: TrafficError, reader: Reader, size: nat): (Reader, ReadResult)
    decreases |reader.wire|
  {
    match ParseFrame(protocol, reader.wire)
    case Short => (reader.(wire := []), Failed(shortError))
    case Bad(e, rest) => (reader.(wire := rest), Failed(e))
    case Parsed(frame, rest) =>
      if frame == DataFrame([]) then NextFrame(protocol, shortError, reader.(wire := rest), size)
      else Deliver(reader.(wire := rest), frame, size)
  }

  /** What a frame that is not skipped gives. */
  function Deliver(reader: Reader, frame: TrafficFrame, size: nat): (Reader, ReadResult) {
    match frame.frameType
    case Data =>
      var n := Min(size, |frame.payload|);
      (reader.(pending := frame.payload[n..]), ReadResult.Data(frame.payload[..n]))
    case Close => (reader.(reachedEOF := true), EndOfStream)
    case Reset => (reader.(reset := Some(frame.payload)), ResetByPeer(frame.payload))
    case _ => (reader, Failed(UnexpectedFrame))
  }

  // ---------------------------------------------------------------------------------------------
  // Writing as a function of the payload
  // ---------------------------------------------------------------------------------------------

  function DataFrame(chunk: bytes): TrafficFrame {
    TrafficFrame(FrameType.Data, chunk)
  }

  /** The chunks a write is cut into: all of the maximal size but the last. */
  function Chunks(payload: bytes, max: nat): seq<bytes>
    requires max > 0
  {
    if payload == [] then []
    else if |payload| <= max then [payload]
    else [payload[..max]] + Chunks(payload[max..], max)
  }

  function EncodeChunks(chunks: seq<bytes>): bytes {
    if chunks == [] then [] else EncodeFrame(DataFrame(chunks[0])) + EncodeChunks(chunks[1..])
  }

  /** Chunking loses nothing and respects the size limit. */
  lemma {:induction false} ChunksJoin(payload: bytes, max: nat)
    requires max > 0
    ensures Join(Chunks(payload, max)) == payload
    ensures forall c :: c in Chunks(payload, max) ==> 0 < |c| <= max
  {
    if |payload| > max {
      ChunksJoin(payload[max..], max);
      assert payload == payload[..max] + payload[max..];
    } else if payload != [] {
      assert Join([payload]) == payload;
    }
  }

  /** `start`, followed by the Data frames of a payload. */
  function WithChunks(start: bytes, payload: bytes, max: nat): bytes
    requires max > 0
  {
    start + EncodeChunks(Chunks(payload, max))
  }

  lemma EncodeChunksAppend(xs: seq<bytes>, ys: seq<bytes>)
    ensures EncodeChunks(xs + ys) == EncodeChunks(xs) + EncodeChunks(ys)
  {
    if xs == [] {
      assert xs + ys == ys;
    } else {
      assert (xs + ys)[1..] == xs[1..] + ys;
      EncodeChunksAppend(xs[1..], ys);
    }
  }

  /** The chunks of a sequence of writes. */
  function AllChunks(writes: seq<bytes>, max: nat): seq<bytes>
    requires max > 0
  {
    if writes == [] then [] else Chunks(writes[0], max) + AllChunks(writes[1..], max)
  }

  lemma {:induction false} AllChunksJoin(writes: seq<bytes>, max: nat)
    requires max > 0
    ensures Join(AllChunks(writes, max)) == Join(writes)
    ensures forall c :: c in AllChunks(writes, max) ==> 0 < |c| <= max
  {
    if writes != [] {
      ChunksJoin(writes[0], max);
      AllChunksJoin(writes[1..], max);
      JoinAppend(Chunks(writes[0], max), AllChunks(writes[1..], max));
    }
  }

  // ---------------------------------------------------------------------------------------------
  // The pipe
  // ---------------------------------------------------------------------------------------------

  /** A frame that ends a stream. */
  type LastFrame = frame: TrafficFrame | frame.frameType.Close? || frame.frameType.Reset?
    witness TrafficFrame(FrameType.Close, [])

  /** What reads give for good once the last frame has been reached. */
  function Ending(last: LastFrame): ReadResult {
    if last.frameType.Close? then EndOfStream else ResetByPeer(last.payload)
  }

  /** The last frame has been read. */
  predicate Ended(reader: Reader) {
    reader.reachedEOF || reader.reset.Some?
  }

  /** Chunk and frame limits that let every chunk through: 0 < MaxDataFrameSize <= MaxFramePayloadBytes < 2^32. */
  predicate Compatible(protocol: Protocol, maxDataFrameSize: nat) {
    0 < maxDataFrameSize <= protocol.maxFramePayload < 0x1_0000_0000
  }

  /**
   The wire carries `chunks`, then the last frame, then anything; or the last frame has been read and is remembered.
   */
  ghost predicate Carries(protocol: Protocol, reader: Reader, chunks: seq<bytes>, last: LastFrame, tail: bytes) {
    && (forall c :: c in chunks ==> 0 < |c| <= protocol.maxFramePayload)
    && if Ended(reader) then
         && chunks == [] && reader.pending == [] && reader.wire == tail && reader.reachedEOF == last.frameType.Close?
         && reader.reset == if last.frameType.Close? then None else Some(last.payload)
       else reader.wire == EncodeChunks(chunks) + (EncodeFrame(last) + tail)
  }

  function Remaining(reader: Reader, chunks: seq<bytes>): bytes {
    reader.pending + Join(chunks)
  }

  lemma NextDataFrame(protocol: Protocol, chunk: bytes, rest: bytes)
    requires 0 < |chunk| <= protocol.maxFramePayload < 0x1_0000_0000
    ensures ParseFrame(protocol, EncodeFrame(DataFrame(chunk)) + rest) == Parsed(DataFrame(chunk), rest)
  {
    ParseInvertsEncode(protocol, DataFrame(chunk), rest);
  }

  /**
   What one read of a pipe must do: if nothing is left, a read into a nonempty buffer returns what `last` says;
   otherwise it returns a prefix of what is left that fits the buffer, nonempty unless the buffer is empty.
   */
  ghost predicate Progress(left: bytes, size: nat, result: ReadResult, left': bytes, last: LastFrame) {
    if size > 0 && left == [] then result == Ending(last) && left' == []
    else result.Data? && left == result.data + left' && |result.data| <= size && (size > 0 ==> result.data != [])
  }

  lemma NextFrameIs(protocol: Protocol, shortError: TrafficError, reader: Reader, size: nat, frame: TrafficFrame,
                    rest: bytes)
    requires protocol.Writable(frame) && |frame.payload| < 0x1_0000_0000 && frame != DataFrame([])
    requires reader.wire == EncodeFrame(frame) + rest
    ensures NextFrame(protocol, shortError, reader, size) == Deliver(reader.(wire := rest), frame, size)
  {
    ParseInvertsEncode(protocol, frame, rest);
  }

  /** Reading the last frame ends the stream and stops before the bytes after it. */
  lemma ReadLast(protocol: Protocol, shortError: TrafficError, reader: Reader, size: nat, last: LastFrame, tail: bytes)
    requires protocol.maxFramePayload < 0x1_0000_0000 && protocol.Writable(last)
    requires !Ended(reader) && reader.pending == [] && reader.wire == EncodeFrame(last) + tail
    ensures Carries(protocol, NextFrame(protocol, shortError, reader, size).0, [], last, tail)
    ensures NextFrame(protocol, shortError, reader, size).0.wire == tail
    ensures NextFrame(protocol, shortError, reader, size).1 == Ending(last)
  {
    NextFrameIs(protocol, shortError, reader, size, last, tail);
  }

  /** Reading a Data frame returns its first bytes and keeps the others. */
  lemma ReadChunk(protocol: Protocol, shortError: TrafficError, reader: Reader, size: nat, chunk: bytes, rest: bytes)
    requires 0 < |chunk| <= protocol.maxFramePayload < 0x1_0000_0000
    requires reader.wire == EncodeFrame(DataFrame(chunk)) + rest
    ensures NextFrame(protocol, shortError, reader, size).0
         == reader.(pending := chunk[Min(size, |chunk|)..], wire := rest)
    ensures NextFrame(protocol, shortError, reader, size).1 == ReadResult.Data(chunk[..Min(size, |chunk|)])
  {
    NextDataFrame(protocol, chunk, rest);
  }

  lemma SplitOff(s: bytes, n: nat, rest: bytes)
    requires n <= |s|
    ensures s + rest == s[..n] + (s[n..] + rest)
  {
  }

  lemma ChunkProgress(chunk: bytes, others: bytes, size: nat, last: LastFrame)
    requires size > 0 && chunk != []
    ensures Progress(chunk + others, size, ReadResult.Data(chunk[..Min(size, |chunk|)]),
                     chunk[Min(size, |chunk|)..] + others, last)
  {
    SplitOff(chunk, Min(size, |chunk|), others);
  }

  lemma ReadFrameStep(protocol: Protocol, shortError: TrafficError, reader: Reader, size: nat, chunks: seq<bytes>,
                      last: LastFrame, tail: bytes)
    requires protocol.maxFramePayload < 0x1_0000_0000 && protocol.Writable(last)
    requires Carries(protocol, reader, chunks, last, tail)
    requires size > 0 && reader.pending == [] && !Ended(reader) && chunks != []
    ensures Carries(protocol, NextFrame(protocol, shortError, reader, size).0, chunks[1..], last, tail)
    ensures Progress(Remaining(reader, chunks), size, NextFrame(protocol, shortError, reader, size).1,
                     Remaining(NextFrame(protocol, shortError, reader, size).0, chunks[1..]), last)
  {
    var chunk := chunks[0];
    assert chunk in chunks;
    var rest := EncodeChunks(chunks[1..]) + (EncodeFrame(last) + tail);
    Regroup(EncodeFrame(DataFrame(chunk)), EncodeChunks(chunks[1..]), EncodeFrame(last) + tail);
    ReadChunk(protocol, shortError, reader, size, chunk, rest);
    FrameProgress(protocol, reader, size, chunks, last, tail, NextFrame(protocol, shortError, reader, size).0,
                  NextFrame(protocol, shortError, reader, size).1);
  }

  lemma FrameProgress(protocol: Protocol, reader: Reader, size: nat, chunks: seq<bytes>, last: LastFrame, tail: bytes,
                      next: Reader, result: ReadResult)
    requires Carries(protocol, reader, chunks, last, tail)
    requires size > 0 && reader.pending == [] && !Ended(reader) && chunks != []
    requires next == reader.(pending := chunks[0][Min(size, |chunks[0]|)..],
                             wire := EncodeChunks(chunks[1..]) + (EncodeFrame(last) + tail))
    requires result == ReadResult.Data(chunks[0][..Min(size, |chunks[0]|)])
    ensures Carries(protocol, next, chunks[1..], last, tail)
    ensures Progress(Remaining(reader, chunks), size, result, Remaining(next, chunks[1..]), last)
  {
    assert chunks[0] in chunks;
    CarriesRest(protocol, reader, chunks, last, tail, next.pending);
    ChunkProgress(chunks[0], Join(chunks[1..]), size, last);
    assert Remaining(reader, chunks) == chunks[0] + Join(chunks[1..]);
  }

  lemma CarriesRest(protocol: Protocol, reader: Reader, chunks: seq<bytes>, last: LastFrame, tail: bytes,
                    pending: bytes)
    requires Carries(protocol, reader, chunks, last, tail) && chunks != []
    ensures Carries(protocol, reader.(pending := pending,
                                      wire := EncodeChunks(chunks[1..]) + (EncodeFrame(last) + tail)),
                    chunks[1..], last, tail)
  {
  }

  /** Every read of a pipe makes progress and leaves a pipe. */
  lemma ReadStep(protocol: Protocol, shortError: TrafficError, reader: Reader, size: nat, chunks: seq<bytes>,
                 last: LastFrame, tail: bytes) returns (chunks': seq<bytes>)
    requires protocol.maxFramePayload < 0x1_0000_0000 && protocol.Writable(last)
    requires Carries(protocol, reader, chunks, last, tail)
    ensures Carries(protocol, ReadSpec(protocol, shortError, reader, size).0, chunks', last, tail)
    ensures Progress(Remaining(reader, chunks), size, ReadSpec(protocol, shortError, reader, size).1,
                     Remaining(ReadSpec(protocol, shortError, reader, size).0, chunks'), last)
    ensures ReadSpec(protocol, shortError, reader, size).1 == Ending(last) ==>
              ReadSpec(protocol, shortError, reader, size).0.wire == tail
  {
    chunks' := chunks;
    if size == 0 {
    } else if reader.pending != [] {
      SplitOff(reader.pending, Min(size, |reader.pending|), Join(chunks));
    } else if Ended(reader) {
    } else if chunks == [] {
      assert reader.wire == EncodeFrame(last) + tail;
      ReadLast(protocol, shortError, reader, size, last, tail);
    } else {
      ReadFrameStep(protocol, shortError, reader, size, chunks, last, tail);
      chunks' := chunks[1..];
    }
  }

  /** A way of reading; the pipe property only needs that each read makes progress. */
  type ReadFn = (Reader, nat) -> (Reader, ReadResult)

  function Reading(protocol: Protocol, shortError: TrafficError): ReadFn {
    (reader: Reader, size: nat) => ReadSpec(protocol, shortError, reader, size)
  }

  ghost predicate GoodStep(protocol: Protocol, reader: Reader, size: nat, next: Reader, result: ReadResult,
                           chunks: seq<bytes>, chunks': seq<bytes>, last: LastFrame, tail: bytes)
  {
    && Carries(protocol, next, chunks', last, tail)
    && Progress(Remaining(reader, chunks), size, result, Remaining(next, chunks'), last)
    && (result == Ending(last) ==> next.wire == tail)
  }

  ghost predicate GoodRead(protocol: Protocol, read: ReadFn, reader: Reader, size: nat, chunks: seq<bytes>,
                           last: LastFrame, tail: bytes)
  {
    exists chunks' ::
      GoodStep(protocol, reader, size, read(reader, size).0, read(reader, size).1, chunks, chunks', last, tail)
  }

  ghost predicate GoodReader(protocol: Protocol, read: ReadFn, last: LastFrame, tail: bytes) {
    forall reader, size: nat, chunks :: Carries(protocol, reader, chunks, last, tail) ==>
      GoodRead(protocol, read, reader, size, chunks, last, tail)
  }

  lemma StreamReadsWell(protocol: Protocol, shortError: TrafficError, last: LastFrame, tail: bytes)
    requires protocol.maxFramePayload < 0x1_0000_0000 && protocol.Writable(last)
    ensures GoodReader(protocol, Reading(protocol, shortError), last, tail)
  {
    forall reader, size: nat, chunks | Carries(protocol, reader, chunks, last, tail)
      ensures GoodRead(protocol, Reading(protocol, shortError), reader, size, chunks, last, tail)
    {
      var chunks' := ReadStep(protocol, shortError, reader, size, chunks, last, tail);
      var (next, result) := ReadSpec(protocol, shortError, reader, size);
      assert GoodStep(protocol, reader, size, next, result, chunks, chunks', last, tail);
      assert Reading(protocol, shortError)(reader, size) == (next, result);
    }
  }

  /** The state before read number `k`. */
  function ReaderAfter(read: ReadFn, start: Reader, sizes: seq<nat>, k: nat): Reader
    requires k <= |sizes|
  {
    if k == 0 then start else read(ReaderAfter(read, start, sizes, k - 1), sizes[k - 1]).0
  }

  function ResultOf(read: ReadFn, start: Reader, sizes: seq<nat>, k: nat): ReadResult
    requires k < |sizes|
  {
    read(ReaderAfter(read, start, sizes, k), sizes[k]).1
  }

  function DataOf(result: ReadResult): bytes {
    if result.Data? then result.data else []
  }

  /** The bytes returned by the first `k` reads. */
  function Received(read: ReadFn, start: Reader, sizes: seq<nat>, k: nat): bytes
    requires k <= |sizes|
  {
    if k == 0 then [] else Received(read, start, sizes, k - 1) + DataOf(ResultOf(read, start, sizes, k - 1))
  }

  /** A reader about to read what `writes` and the last frame put on the wire, whatever follows. */
  function PipeStart(writes: seq<bytes>, max: nat, last: LastFrame, tail: bytes): Reader
    requires max > 0
  {
    Reader([], false, None, EncodeChunks(AllChunks(writes, max)) + (EncodeFrame(last) + tail))
  }

  /** At any point what has been received and what is left make up what was written. */
  lemma {:induction false} PipeInvariant(protocol: Protocol, read: ReadFn, start: Reader, chunks: seq<bytes>,
                                         last: LastFrame, tail: bytes, sizes: seq<nat>, k: nat)
    returns (chunks': seq<bytes>)
    requires GoodReader(protocol, read, last, tail) && Carries(protocol, start, chunks, last, tail) && k <= |sizes|
    ensures Carries(protocol, ReaderAfter(read, start, sizes, k), chunks', last, tail)
    ensures Remaining(start, chunks)
         == Received(read, start, sizes, k) + Remaining(ReaderAfter(read, start, sizes, k), chunks')
    decreases k
  {
    if k == 0 {
      chunks' := chunks;
    } else {
      var before := PipeInvariant(protocol, read, start, chunks, last, tail, sizes, k - 1);
      var reader := ReaderAfter(read, start, sizes, k - 1);
      assert GoodRead(protocol, read, reader, sizes[k - 1], before, last, tail);
      var next, result := read(reader, sizes[k - 1]).0, read(reader, sizes[k - 1]).1;
      chunks' :| GoodStep(protocol, reader, sizes[k - 1], next, result, before, chunks', last, tail);
      Regroup(Received(read, start, sizes, k - 1), DataOf(result), Remaining(next, chunks'));
    }
  }

  lemma PipeRead(protocol: Protocol, read: ReadFn, start: Reader, chunks: seq<bytes>, last: LastFrame, tail: bytes,
                 sizes: seq<nat>, k: nat) returns (left: bytes, left': bytes)
    requires GoodReader(protocol, read, last, tail) && Carries(protocol, start, chunks, last, tail) && k < |sizes|
    ensures Remaining(start, chunks) == Received(read, start, sizes, k) + left
    ensures Progress(left, sizes[k], ResultOf(read, start, sizes, k), left', last)
    ensures ResultOf(read, start, sizes, k) == Ending(last) ==> ReaderAfter(read, start, sizes, k + 1).wire == tail
  {
    var now := PipeInvariant(protocol, read, start, chunks, last, tail, sizes, k);
    var reader := ReaderAfter(read, start, sizes, k);
    left := Remaining(reader, now);
    assert GoodRead(protocol, read, reader, sizes[k], now, last, tail);
    var next, result := read(reader, sizes[k]).0, read(reader, sizes[k]).1;
    var later :| GoodStep(protocol, reader, sizes[k], next, result, now, later, last, tail);
    left' := Remaining(next, later);
  }

  /**
   What a read must give when `received` of `written` has been received before: at least one byte, at most as many as
   fit, and only bytes written, while anything is missing; what `last` says once nothing is.
   */
  predicate ReadOk(written: bytes, received: bytes, size: nat, result: ReadResult, last: LastFrame) {
    && received <= written
    && if size == 0 then result == ReadResult.Data([])
       else if received == written then result == Ending(last)
       else result.Data? && 0 < |result.data| <= size && received + result.data <= written
  }

  lemma ProgressIsOk(received: bytes, left: bytes, size: nat, result: ReadResult, left': bytes, last: LastFrame)
    requires Progress(left, size, result, left', last)
    ensures ReadOk(received + left, received, size, result, last)
  {
    if left != [] && size > 0 {
      Regroup(received, result.data, left');
      assert |received + left| > |received|;
    } else if left == [] {
      assert received + left == received;
    }
  }

  /**
   The pipe: for any writes and any read sizes, what has been received is always a prefix of what was written; a read
   into a nonempty buffer returns at least one byte, at most as many as fit, while anything is missing, and from the
   moment everything has been received what the last frame says: end of stream for a Close frame, an error with that
   frame's body for a Reset frame. No byte after the last frame has been touched then.
   */
  lemma Pipe(protocol: Protocol, shortError: TrafficError, max: nat, writes: seq<bytes>, last: LastFrame, tail: bytes,
             sizes: seq<nat>, k: nat)
    requires Compatible(protocol, max) && protocol.Writable(last) && k < |sizes|
    ensures var read, start := Reading(protocol, shortError), PipeStart(writes, max, last, tail);
            && ReadOk(Join(writes), Received(read, start, sizes, k), sizes[k], ResultOf(read, start, sizes, k), last)
            && (ResultOf(read, start, sizes, k) == Ending(last) ==> ReaderAfter(read, start, sizes, k + 1).wire == tail)
  {
    var read, start := Reading(protocol, shortError), PipeStart(writes, max, last, tail);
    AllChunksJoin(writes, max);
    StreamReadsWell(protocol, shortError, last, tail);
    var chunks := AllChunks(writes, max);
    assert Remaining(start, chunks) == Join(writes);
    var left, left' := PipeRead(protocol, read, start, chunks, last, tail, sizes, k);
    ProgressIsOk(Received(read, start, sizes, k), left, sizes[k], ResultOf(read, start, sizes, k), left', last);
  }

  lemma DrainStep(written: bytes, received: bytes, size: nat, result: ReadResult, last: LastFrame, k: nat)
    requires ReadOk(written, received, size, result, last) && size > 0
    requires received == written || |received| >= k
    ensures var more := received + DataOf(result);
            more == written || (more <= written && |more| >= k + 1)
  {
    if received == written {
      assert received + DataOf(result) == written;
    }
  }

  predicate OkAt(read: ReadFn, start: Reader, written: bytes, last: LastFrame, sizes: seq<nat>, k: nat)
    requires k < |sizes|
  {
    ReadOk(written, Received(read, start, sizes, k), sizes[k], ResultOf(read, start, sizes, k), last)
  }

  lemma {:induction false} Drains(read: ReadFn, start: Reader, written: bytes, last: LastFrame, sizes: seq<nat>,
                                  k: nat)
    requires forall i :: 0 <= i < |sizes| ==> sizes[i] > 0
    requires forall i :: 0 <= i < |sizes| ==> OkAt(read, start, written, last, sizes, i)
    requires k <= |sizes|
    ensures var received := Received(read, start, sizes, k);
            received == written || (received <= written && |received| >= k)
  {
    if k > 0 {
      Drains(read, start, written, last, sizes, k - 1);
      assert OkAt(read, start, written, last, sizes, k - 1);
      DrainStep(written, Received(read, start, sizes, k - 1), sizes[k - 1], ResultOf(read, start, sizes, k - 1), last,
                k - 1);
    }
  }

  /** Nonempty reads get through: after as many of them as there are bytes, everything has been received. */
  lemma PipeDrains(protocol: Protocol, shortError: TrafficError, max: nat, writes: seq<bytes>, last: LastFrame,
                   tail: bytes, sizes: seq<nat>, k: nat)
    requires Compatible(protocol, max) && protocol.Writable(last) && k <= |sizes|
    requires forall i :: 0 <= i < |sizes| ==> sizes[i] > 0
    ensures var received := Received(Reading(protocol, shortError), PipeStart(writes, max, last, tail), sizes, k);
            received == Join(writes) || (received <= Join(writes) && |received| >= k)
  {
    var read, start := Reading(protocol, shortError), PipeStart(writes, max, last, tail);
    forall i | 0 <= i < |sizes|
      ensures OkAt(read, start, Join(writes), last, sizes, i)
    {
      Pipe(protocol, shortError, max, writes, last, tail, sizes, i);
    }
    Drains(read, start, Join(writes), last, sizes, k);
  }

  // ---------------------------------------------------------------------------------------------
  // Any wire
  // ---------------------------------------------------------------------------------------------

  /** The wire behind its first `n` frames, good or bad. */
  function After(protocol: Protocol, wire: bytes, n: nat): bytes {
    if n == 0 then wire else RestOf(ParseFrame(protocol, After(protocol, wire, n - 1)))
  }

  function RestOf(frame: Parse): bytes {
    if frame.Short? then [] else frame.rest
  }

  /** The data a frame carries. */
  function PayloadOf(frame: Parse): bytes {
    if frame.Parsed? && frame.frame.frameType.Data? then frame.frame.payload else []
  }

  function FrameAt(protocol: Protocol, wire: bytes, n: nat): Parse {
    ParseFrame(protocol, After(protocol, wire, n))
  }

  /** The payloads of the Data frames among the first `n` frames. */
  function DataIn(protocol: Protocol, wire: bytes, n: nat): bytes {
    if n == 0 then [] else DataIn(protocol, wire, n - 1) + PayloadOf(FrameAt(protocol, wire, n - 1))
  }

  /** Why a read may give a result other than data when `frame` is the latest one it has taken. */
  predicate Cause(frame: Parse, shortError: TrafficError, result: ReadResult) {
    match result
    case Data(_) => true
    case EndOfStream => frame.Parsed? && frame.frame.frameType.Close?
    case ResetByPeer(body) => frame.Parsed? && frame.frame == TrafficFrame(FrameType.Reset, body)
    case Failed(error) =>
      match frame
      case Short => error == shortError
      case Bad(cause, _) => error == cause
      case Parsed(frame, _) =>
        !frame.frameType.Data? && !frame.frameType.Close? && !frame.frameType.Reset? && error == UnexpectedFrame
  }

  /**
   A reader that has taken `n` frames off the wire: it has handed out all their data but the pending bytes, and it has
   ended only at a frame that ends a stream.
   */
  predicate Taken(protocol: Protocol, wire: bytes, reader: Reader, received: bytes, n: nat) {
    && reader.wire == After(protocol, wire, n)
    && received + reader.pending == DataIn(protocol, wire, n)
    && (reader.reachedEOF ==> n > 0 && Cause(FrameAt(protocol, wire, n - 1), UnexpectedFrame, EndOfStream))
    && (reader.reset.Some? ==>
          n > 0 && Cause(FrameAt(protocol, wire, n - 1), UnexpectedFrame, ResetByPeer(reader.reset.value)))
  }

  /**
   What a read into a buffer of `size` bytes gives that has taken the frames from `m` up to `n`: all but the last are
   empty Data frames, and a result other than data has the last one as its cause.
   */
  ghost predicate Answer(protocol: Protocol, shortError: TrafficError, wire: bytes, size: nat, m: nat, n: nat,
                         result: ReadResult)
  {
    && m <= n
    && (forall i :: m <= i < n - 1 ==> IsEmptyData(FrameAt(protocol, wire, i)))
    && if result.Data? then |result.data| <= size && (size > 0 ==> result.data != [])
       else size > 0 && n > 0 && Cause(FrameAt(protocol, wire, n - 1), shortError, result)
  }

  predicate IsEmptyData(frame: Parse) {
    frame.Parsed? && frame.frame == DataFrame([])
  }

  /** What a read gives that has taken one frame that is not skipped. */
  function Handle(frame: Parse, shortError: TrafficError, reader: Reader, size: nat): (Reader, ReadResult) {
    match frame
    case Short => (reader.(wire := []), Failed(shortError))
    case Bad(error, rest) => (reader.(wire := rest), Failed(error))
    case Parsed(frame, rest) => Deliver(reader.(wire := rest), frame, size)
  }

  /** What one frame that is no empty Data frame does to a reader that has handed out `received`. */
  lemma HandleAnswers(frame: Parse, shortError: TrafficError, reader: Reader, received: bytes, size: nat)
    requires size > 0 && reader.pending == [] && !Ended(reader) && !IsEmptyData(frame)
    ensures var (next, result) := Handle(frame, shortError, reader, size);
            && next.wire == RestOf(frame) && Cause(frame, shortError, result)
            && received + DataOf(result) + next.pending == received + PayloadOf(frame)
            && (result.Data? ==> 0 < |result.data| <= size)
            && (next.reachedEOF ==> Cause(frame, UnexpectedFrame, EndOfStream))
            && (next.reset.Some? ==> Cause(frame, UnexpectedFrame, ResetByPeer(next.reset.value)))
  {
    if frame.Parsed? && frame.frame.frameType.Data? {
      var payload := frame.frame.payload;
      var n := Min(size, |payload|);
      assert frame.frame == DataFrame(payload);
      Regroup(received, payload[..n], payload[n..]);
    }
  }

  lemma TakenNext(protocol: Protocol, shortError: TrafficError, wire: bytes, reader: Reader, received: bytes,
                  size: nat, m: nat)
    requires Taken(protocol, wire, reader, received, m) && size > 0 && reader.pending == [] && !Ended(reader)
    requires !IsEmptyData(FrameAt(protocol, wire, m))
    ensures var (next, result) := Handle(FrameAt(protocol, wire, m), shortError, reader, size);
            && Taken(protocol, wire, next, received + DataOf(result), m + 1)
            && Answer(protocol, shortError, wire, size, m, m + 1, result)
  {
    HandleAnswers(FrameAt(protocol, wire, m), shortError, reader, received, size);
  }

  lemma TakenEmpty(protocol: Protocol, wire: bytes, reader: Reader, received: bytes, m: nat)
    requires Taken(protocol, wire, reader, received, m) && reader.pending == [] && !Ended(reader)
    requires IsEmptyData(FrameAt(protocol, wire, m))
    ensures Taken(protocol, wire, reader.(wire := FrameAt(protocol, wire, m).rest), received, m + 1)
  {
  }

  lemma NextFrameHandles(protocol: Protocol, shortError: TrafficError, reader: Reader, size: nat)
    ensures var frame := ParseFrame(protocol, reader.wire);
            NextFrame(protocol, shortError, reader, size)
            == if IsEmptyData(frame) then NextFrame(protocol, shortError, reader.(wire := frame.rest), size)
               else Handle(frame, shortError, reader, size)
  {
  }

  lemma {:induction false} NextFrameAnswers(protocol: Protocol, shortError: TrafficError, wire: bytes, reader: Reader,
                                            received: bytes, size: nat, m: nat) returns (n: nat)
    requires Taken(protocol, wire, reader, received, m) && size > 0 && reader.pending == [] && !Ended(reader)
    ensures var (next, result) := NextFrame(protocol, shortError, reader, size);
            && Taken(protocol, wire, next, received + DataOf(result), n)
            && n > m && Answer(protocol, shortError, wire, size, m, n, result)
    decreases |reader.wire|
  {
    var frame := FrameAt(protocol, wire, m);
    NextFrameHandles(protocol, shortError, reader, size);
    if IsEmptyData(frame) {
      TakenEmpty(protocol, wire, reader, received, m);
      n := NextFrameAnswers(protocol, shortError, wire, reader.(wire := frame.rest), received, size, m + 1);
    } else {
      n := m + 1;
      TakenNext(protocol, shortError, wire, reader, received, size, m);
    }
  }

  lemma TakenHandOut(protocol: Protocol, wire: bytes, reader: Reader, received: bytes, m: nat, k: nat)
    requires Taken(protocol, wire, reader, received, m) && k <= |reader.pending|
    ensures Taken(protocol, wire, reader.(pending := reader.pending[k..]), received + reader.pending[..k], m)
  {
    assert reader.pending[..k] + reader.pending[k..] == reader.pending;
    Regroup(received, reader.pending[..k], reader.pending[k..]);
  }

  /** A reader that has ended has the cause at the frame it took last. */
  lemma EndedAnswers(protocol: Protocol, shortError: TrafficError, wire: bytes, reader: Reader, received: bytes,
                     size: nat, m: nat)
    requires Taken(protocol, wire, reader, received, m) && size > 0 && reader.pending == [] && Ended(reader)
    ensures ReadSpec(protocol, shortError, reader, size).0 == reader
    ensures !ReadSpec(protocol, shortError, reader, size).1.Data?
    ensures Answer(protocol, shortError, wire, size, m, m, ReadSpec(protocol, shortError, reader, size).1)
  {
  }

  lemma ReadAnswers(protocol: Protocol, shortError: TrafficError, wire: bytes, reader: Reader, received: bytes,
                    size: nat, m: nat) returns (n: nat)
    requires Taken(protocol, wire, reader, received, m)
    ensures var (next, result) := ReadSpec(protocol, shortError, reader, size);
            && Taken(protocol, wire, next, received + DataOf(result), n)
            && Answer(protocol, shortError, wire, size, m, n, result)
  {
    n := m;
    if size == 0 {
      assert received + [] == received;
    } else if reader.pending != [] {
      TakenHandOut(protocol, wire, reader, received, m, Min(size, |reader.pending|));
    } else if Ended(reader) {
      EndedAnswers(protocol, shortError, wire, reader, received, size, m);
      assert received + [] == received;
    } else {
      n := NextFrameAnswers(protocol, shortError, wire, reader, received, size, m);
    }
  }

  /** A reader in front of an arbitrary wire. */
  function Fresh(wire: bytes): Reader {
    Reader([], false, None, wire)
  }

  /**
   Whatever is on the wire, each read has taken a number of its frames. All their data has been received or is pending.
   Frames other than empty Data frames are taken one a read; a read ends at a Close frame, fails with the body of a
   Reset frame, with the error of a bad frame, or with `UnexpectedFrame` at any other one, and in no other case.
   */
  lemma {:induction false} AnyWire(protocol: Protocol, shortError: TrafficError, wire: bytes, sizes: seq<nat>, k: nat)
    returns (m: nat, n: nat)
    requires k < |sizes|
    ensures var read, start := Reading(protocol, shortError), Fresh(wire);
            && Taken(protocol, wire, ReaderAfter(read, start, sizes, k), Received(read, start, sizes, k), m)
            && Taken(protocol, wire, ReaderAfter(read, start, sizes, k + 1), Received(read, start, sizes, k + 1), n)
            && Answer(protocol, shortError, wire, sizes[k], m, n, ResultOf(read, start, sizes, k))
  {
    var read, start := Reading(protocol, shortError), Fresh(wire);
    if k == 0 {
      m := 0;
    } else {
      var first;
      first, m := AnyWire(protocol, shortError, wire, sizes, k - 1);
    }
    var reader, received := ReaderAfter(read, start, sizes, k), Received(read, start, sizes, k);
    n := ReadAnswers(protocol, shortError, wire, reader, received, sizes[k], m);
    assert read(reader, sizes[k]) == ReadSpec(protocol, shortError, reader, sizes[k]);
  }

  /** Reads of nonempty buffers give `result` from now on. */
  predicate Over(reader: Reader, result: ReadResult) {
    && reader.pending == []
    && match result
       case EndOfStream => reader.reachedEOF
       case ResetByPeer(body) => !reader.reachedEOF && reader.reset == Some(body)
       case _ => false
  }

  lemma {:induction false} NextFrameEnds(protocol: Protocol, shortError: TrafficError, reader: Reader, size: nat)
    requires reader.pending == [] && !Ended(reader)
    ensures var (next, result) := NextFrame(protocol, shortError, reader, size);
            result.EndOfStream? || result.ResetByPeer? ==> Over(next, result)
    decreases |reader.wire|
  {
    var frame := ParseFrame(protocol, reader.wire);
    NextFrameHandles(protocol, shortError, reader, size);
    if IsEmptyData(frame) {
      NextFrameEnds(protocol, shortError, reader.(wire := frame.rest), size);
    }
  }

  /** A stream that has ended, or was reset, gives the same answer for good. */
  lemma {:induction false} EndsForGood(protocol: Protocol, shortError: TrafficError, start: Reader, sizes: seq<nat>,
                                       k: nat, m: nat)
    requires k <= m < |sizes|
    requires var result := ResultOf(Reading(protocol, shortError), start, sizes, k);
             result.EndOfStream? || result.ResetByPeer?
    ensures var read := Reading(protocol, shortError);
            && Over(ReaderAfter(read, start, sizes, m + 1), ResultOf(read, start, sizes, k))
            && ResultOf(read, start, sizes, m)
               == if sizes[m] > 0 then ResultOf(read, start, sizes, k) else ReadResult.Data([])
  {
    var read := Reading(protocol, shortError);
    var reader, size := ReaderAfter(read, start, sizes, m), sizes[m];
    assert read(reader, size) == ReadSpec(protocol, shortError, reader, size);
    if m > k {
      EndsForGood(protocol, shortError, start, sizes, k, m - 1);
    } else if reader.pending == [] && !Ended(reader) {
      NextFrameEnds(protocol, shortError, reader, size);
    }
  }

  // ---------------------------------------------------------------------------------------------
  // Deadlines: reads that stop in the middle of a frame
  // ---------------------------------------------------------------------------------------------

  /** Time ran out when `wire` was unread, having taken the first `dropped` bytes of it. */
  datatype Interruption = Interruption(wire: bytes, dropped: nat)

  /** Up to `wire` there are only frames that a read skips: going on from there it ends as it would from `start`. */
  ghost predicate Skips(protocol: Protocol, start: Reader, size: nat, wire: bytes) {
    && |wire| <= |start.wire| && start.wire[|start.wire| - |wire|..] == wire
    && forall shortError ::
         NextFrame(protocol, shortError, start.(wire := wire), size) == NextFrame(protocol, shortError, start, size)
  }

  lemma SkippedReads(protocol: Protocol, shortError: TrafficError, start: Reader, size: nat, wire: bytes)
    requires Skips(protocol, start, size, wire)
    ensures NextFrame(protocol, shortError, start.(wire := wire), size) == NextFrame(protocol, shortError, start, size)
  {
  }

  lemma SkipsMore(protocol: Protocol, start: Reader, size: nat, wire: bytes, rest: bytes)
    requires Skips(protocol, start, size, wire)
    requires ParseFrame(protocol, wire) == Parsed(DataFrame([]), rest)
    ensures Skips(protocol, start, size, rest)
  {
    forall shortError
      ensures NextFrame(protocol, shortError, start.(wire := rest), size)
           == NextFrame(protocol, shortError, start, size)
    {
      assert NextFrame(protocol, shortError, start.(wire := wire), size)
          == NextFrame(protocol, shortError, start, size);
      assert start.(wire := wire).(wire := rest) == start.(wire := rest);
    }
  }

  /** A read that ran out of time between two frames can be repeated: the next one gives what it would have given. */
  lemma RetryAfterTimeout(protocol: Protocol, shortError: TrafficError, start: Reader, size: nat, wire: bytes)
    requires size > 0 && start.pending == [] && !Ended(start)
    requires Skips(protocol, start, size, wire)
    ensures ReadSpec(protocol, shortError, start.(wire := wire), size) == ReadSpec(protocol, shortError, start, size)
  {
    assert NextFrame(protocol, shortError, start.(wire := wire), size)
        == NextFrame(protocol, shortError, start, size);
  }

  /** Dropping `n` bytes of the wire leaves a pipe that carries some of the chunks. */
  ghost predicate StillCarries(protocol: Protocol, reader: Reader, n: nat, chunks: seq<bytes>, last: LastFrame,
                               tail: bytes)
    requires n <= |reader.wire|
  {
    exists k :: 0 <= k <= |chunks| && Carries(protocol, reader.(wire := reader.wire[n..]), chunks[k..], last, tail)
  }

  /** A read of a pipe that ran out of time within a frame leaves a pipe exactly if it had not taken a byte of it. */
  lemma TimeoutKeepsPipe(protocol: Protocol, reader: Reader, n: nat, chunks: seq<bytes>, last: LastFrame, tail: bytes)
    requires protocol.maxFramePayload < 0x1_0000_0000 && protocol.Writable(last)
    requires Carries(protocol, reader, chunks, last, tail) && !Ended(reader)
    requires n <= |reader.wire| && n < Needed(reader.wire)
    ensures StillCarries(protocol, reader, n, chunks, last, tail) <==> n == 0
  {
    if chunks != [] {
      assert chunks[0] in chunks;
    }
    FirstNeeded(chunks, last, tail);
    forall k | 0 < k <= |chunks|
      ensures |EncodeChunks(chunks[k..])| + |EncodeFrame(DataFrame(chunks[0]))| <= |EncodeChunks(chunks)|
    {
      LaterChunksShorter(chunks, k);
    }
    assert chunks[0..] == chunks && reader.wire[0..] == reader.wire;
    if n == 0 {
      assert Carries(protocol, reader.(wire := reader.wire[0..]), chunks[0..], last, tail);
    }
  }

  lemma LaterChunksShorter(chunks: seq<bytes>, k: nat)
    requires 0 < k <= |chunks|
    ensures |EncodeChunks(chunks[k..])| + |EncodeFrame(DataFrame(chunks[0]))| <= |EncodeChunks(chunks)|
  {
    assert chunks == chunks[..k] + chunks[k..];
    EncodeChunksAppend(chunks[..k], chunks[k..]);
    assert EncodeChunks(chunks[..k]) == EncodeFrame(DataFrame(chunks[..k][0])) + EncodeChunks(chunks[..k][1..]);
  }

  /** The frame at the start of the wire of a pipe. */
  function FirstFrame(chunks: seq<bytes>, last: LastFrame): TrafficFrame {
    if chunks == [] then last else DataFrame(chunks[0])
  }

  lemma FirstNeeded(chunks: seq<bytes>, last: LastFrame, tail: bytes)
    requires |FirstFrame(chunks, last).payload| < 0x1_0000_0000
    ensures Needed(EncodeChunks(chunks) + (EncodeFrame(last) + tail))
         == |EncodeFrame(FirstFrame(chunks, last))|
  {
    var close := EncodeFrame(last) + tail;
    var rest := if chunks == [] then tail else EncodeChunks(chunks[1..]) + close;
    NeededIs(FirstFrame(chunks, last), rest);
    if chunks == [] {
      assert [] + close == close;
    } else {
      Regroup(EncodeFrame(DataFrame(chunks[0])), EncodeChunks(chunks[1..]), close);
    }
  }

  lemma NeededIs(frame: TrafficFrame, rest: bytes)
    requires EncodeWireType(frame.frameType).Ok? && |frame.payload| < 0x1_0000_0000
    ensures Needed(EncodeFrame(frame) + rest) == |EncodeFrame(frame)|
  {
    var wire := EncodeFrame(frame) + rest;
    assert wire[1..5] == BE32(|frame.payload|);
    BE32Bijective(|frame.payload|, wire[1..5]);
  }

  // ---------------------------------------------------------------------------------------------
  // The stream object
  // ---------------------------------------------------------------------------------------------

  class TrafficDataStream {
    const tunnel: GRPCH2Tunnel
    const protocol: Protocol
    const maxDataFrameSize: nat
    var pendingRead: bytes
    var reachedEOF: bool
    var terminalReadError: Option<bytes>

    ghost predicate Valid()
      reads this, tunnel
    {
      maxDataFrameSize > 0 && tunnel.Valid()
    }

    ghost function View(): Reader
      reads this, tunnel
      requires Valid()
    {
      Reader(pendingRead, reachedEOF, terminalReadError, tunnel.Unread())
    }

    constructor (tunnel: GRPCH2Tunnel, protocol: Protocol, maxDataFrameSize: nat)
      requires tunnel.Valid() && maxDataFrameSize > 0
      ensures Valid() && this.tunnel == tunnel && this.protocol == protocol && this.maxDataFrameSize == maxDataFrameSize
      ensures View() == Reader([], false, None, tunnel.Unread())
    {
      this.tunnel, this.protocol, this.maxDataFrameSize := tunnel, protocol, maxDataFrameSize;
      pendingRead, reachedEOF, terminalReadError := [], false, None;
    }

    /**
     Writes the payload as Data frames. All of it is written exactly if no error is returned; in any case the first
     `written` bytes are on the wire as whole frames, followed at most by a part of the next frame. A stream that has
     been closed or reset writes nothing.
     */
    method Write(payload: bytes) returns (written: nat, ok: bool, ghost partial: bytes)
      requires Valid()
      modifies tunnel`outbound, tunnel`state, tunnel`failed, tunnel`inbound, tunnel`cut
      ensures Valid() && written <= |payload| && (ok <==> written == |payload|)
      ensures tunnel.Sent() == WithChunks(old(tunnel.Sent()), payload[..written], maxDataFrameSize) + partial
      ensures ok ==> partial == []
      ensures !ok ==> partial <= EncodeFrame(DataFrame(NextChunk(payload, written, maxDataFrameSize)))
      ensures payload != [] && (reachedEOF || terminalReadError.Some?) ==> !ok && written == 0 && partial == []
      ensures ok ==> |NextChunk(payload, 0, maxDataFrameSize)| <= protocol.maxFramePayload
    {
      written, partial := 0, [];
      ghost var start, max := tunnel.Sent(), maxDataFrameSize;
      while written < |payload|
        invariant Valid() && written <= |payload| && (written < |payload| ==> Aligned(written, max))
        invariant tunnel.Sent() == WithChunks(start, payload[..written], max) && partial == []
        invariant written > 0 ==> && !reachedEOF && terminalReadError == None
                                  && |NextChunk(payload, 0, max)| <= protocol.maxFramePayload
      {
        var chunkSize;
        chunkSize, ok, partial := WriteNext(payload, written);
        if !ok {
          return;
        }
        OneMoreChunk(start, payload, written, max);
        written := written + chunkSize;
      }
      ok := true;
    }

    /** Writes the next chunk of the payload as one Data frame. */
    method WriteNext(payload: bytes, written: nat) returns (chunkSize: nat, ok: bool, ghost partial: bytes)
      requires Valid() && written < |payload|
      modifies tunnel`outbound, tunnel`state, tunnel`failed, tunnel`inbound, tunnel`cut
      ensures Valid() && chunkSize == |NextChunk(payload, written, maxDataFrameSize)|
      ensures ok ==> && !reachedEOF && terminalReadError == None && chunkSize <= protocol.maxFramePayload
                     && partial == []
                     && tunnel.Sent() == old(tunnel.Sent())
                          + EncodeFrame(DataFrame(NextChunk(payload, written, maxDataFrameSize)))
      ensures !ok ==> && tunnel.Sent() == old(tunnel.Sent()) + partial
                      && partial <= EncodeFrame(DataFrame(NextChunk(payload, written, maxDataFrameSize)))
      ensures reachedEOF || terminalReadError.Some? ==> !ok && partial == []
    {
      chunkSize := maxDataFrameSize;
      if |payload| - written < chunkSize {
        chunkSize := |payload| - written;
      }
      if terminalReadError.Some? || reachedEOF {
        return chunkSize, false, [];
      }
      var chunk := payload[written..written + chunkSize];
      var error, sent := WriteFrame(protocol, tunnel, DataFrame(chunk));
      ok := error.None?;
      partial := [];
      if error.Some? && protocol.Writable(DataFrame(chunk)) {
        partial := EncodeFrame(DataFrame(chunk))[..sent];
      }
    }

    /**
     A read does what `ReadSpec` says of the unread bytes; how they are cut into messages does not matter. If the
     tunnel's deadline passes, it fails and changes only what is left on the wire.
     */
    method Read(size: nat) returns (result: ReadResult, ghost late: Option<Interruption>)
      requires Valid()
      modifies this, tunnel`pendingRead, tunnel`pendingReadOffset, tunnel`inbound, tunnel`cut
      modifies tunnel`state, tunnel`failed
      ensures Valid()
      ensures late == None ==>
                && tunnel.EndsWith() == old(tunnel.EndsWith())
                && View() == ReadSpec(protocol, EndError(old(tunnel.EndsWith())), old(View()), size).0
                && result == ReadSpec(protocol, EndError(old(tunnel.EndsWith())), old(View()), size).1
      ensures late.Some? ==>
                && size > 0 && pendingRead == [] && !reachedEOF && terminalReadError == None
                && Interrupted(old(View()), size, late.value, old(tunnel.EndsWith()), result)
    {
      if size == 0 {
        return ReadResult.Data([]), None;
      }
      if |pendingRead| > 0 {
        var readSize := Min(size, |pendingRead|);
        result, late := ReadResult.Data(pendingRead[..readSize]), None;
        pendingRead := pendingRead[readSize..];
        return;
      }
      if reachedEOF {
        return EndOfStream, None;
      }
      if terminalReadError.Some? {
        return ResetByPeer(terminalReadError.value), None;
      }
      result, late := ReadFrames(size);
    }

    /** The frame loop of Read. */
    method ReadFrames(size: nat) returns (result: ReadResult, ghost late: Option<Interruption>)
      requires Valid() && pendingRead == []
      modifies this, tunnel`pendingRead, tunnel`pendingReadOffset, tunnel`inbound, tunnel`cut
      modifies tunnel`state, tunnel`failed
      ensures Valid() && Progressed(old(View()), size, old(tunnel.EndsWith()), Some(result), late)
    {
      ghost var start, end := View(), tunnel.EndsWith();
      var round: Option<ReadResult> := None;
      late := None;
      while round == None
        invariant Valid() && Progressed(start, size, end, round, late)
        decreases round == None, |tunnel.Unread()|
      {
        round, late := NextRound(start, size, end);
      }
      result := round.value;
    }

    /** Where the frame loop is: past some skipped frames, or at its answer. */
    ghost predicate Progressed(start: Reader, size: nat, end: ReadError, round: Option<ReadResult>,
                               late: Option<Interruption>)
      reads this, tunnel
      requires Valid()
    {
      match round
      case None => late == None && Passed(start, size, end)
      case Some(result) =>
        if late == None then Answered(start, size, end, result)
        else Interrupted(start, size, late.value, end, result)
    }

    ghost predicate Passed(start: Reader, size: nat, end: ReadError)
      reads this, tunnel
      requires Valid()
    {
      && start.pending == [] && tunnel.EndsWith() == end
      && View() == start.(wire := tunnel.Unread()) && Skips(protocol, start, size, tunnel.Unread())
    }

    ghost predicate Answered(start: Reader, size: nat, end: ReadError, result: ReadResult)
      reads this, tunnel
      requires Valid()
    {
      && tunnel.EndsWith() == end
      && View() == NextFrame(protocol, EndError(end), start, size).0
      && result == NextFrame(protocol, EndError(end), start, size).1
    }

    /** What a read that began at `start` and ran out of time did. */
    ghost predicate Interrupted(start: Reader, size: nat, late: Interruption, end: ReadError, result: ReadResult)
      reads this, tunnel
      requires Valid()
    {
      && tunnel.readDeadlineSet && result == Failed(ReadFailed(Timeout))
      && View() == start.(wire := tunnel.Unread())
      && Skips(protocol, start, size, late.wire) && late.dropped < Needed(late.wire)
      && Stopped(tunnel, late.wire, end, late.dropped)
    }

    /** Reads a frame, and hands it out unless it is skipped. */
    method NextRound(ghost start: Reader, size: nat, ghost end: ReadError)
      returns (round: Option<ReadResult>, ghost late: Option<Interruption>)
      requires Valid() && Passed(start, size, end)
      modifies this, tunnel`pendingRead, tunnel`pendingReadOffset, tunnel`inbound, tunnel`cut
      modifies tunnel`state, tunnel`failed
      ensures Valid() && Progressed(start, size, end, round, late)
      ensures round == None ==> |tunnel.Unread()| < |old(tunnel.Unread())|
    {
      ghost var wire := tunnel.Unread();
      SkippedReads(protocol, EndError(end), start, size, wire);
      var frame;
      ghost var expired;
      frame, expired := ReadFrame(protocol, tunnel);
      if frame.Err? {
        late := if expired.Some? then Some(Interruption(wire, expired.value)) else None;
        return Some(Failed(frame.error)), late;
      }
      late := None;
      if frame.value.frameType != FrameType.Data || |frame.value.payload| > 0 {
        var result := HandleFrame(frame.value, size);
        return Some(result), None;
      }
      round := None;
      SkipsMore(protocol, start, size, wire, tunnel.Unread());
    }

    /** A frame that is not skipped ends the read. */
    method HandleFrame(frame: TrafficFrame, size: nat) returns (result: ReadResult)
      requires Valid() && pendingRead == []
      modifies this
      ensures Valid() && tunnel.EndsWith() == old(tunnel.EndsWith())
      ensures View() == Deliver(old(View()), frame, size).0 && result == Deliver(old(View()), frame, size).1
    {
      match frame.frameType {
        case Data =>
          var readSize := Min(size, |frame.payload|);
          if readSize < |frame.payload| {
            pendingRead := frame.payload[readSize..];
          }
          return ReadResult.Data(frame.payload[..readSize]);
        case Close =>
          reachedEOF := true;
          return EndOfStream;
        case Reset =>
          terminalReadError := Some(frame.payload);
          return ResetByPeer(frame.payload);
        case _ =>
          return Failed(UnexpectedFrame);
      }
    }
  }

  /** Writing all of `writes` and then the last frame puts on the wire exactly what a pipe starts with. */
  method WriteAllAndEnd(stream: TrafficDataStream, writes: seq<bytes>, last: LastFrame) returns (ok: bool)
    requires stream.Valid()
    modifies stream.tunnel`outbound, stream.tunnel`state, stream.tunnel`failed
    modifies stream.tunnel`inbound, stream.tunnel`cut
    ensures stream.Valid()
    ensures ok ==>
              stream.tunnel.Sent()
              == old(stream.tunnel.Sent()) + PipeStart(writes, stream.maxDataFrameSize, last, []).wire
  {
    ghost var start, done, max := stream.tunnel.Sent(), [], stream.maxDataFrameSize;
    for i := 0 to |writes|
      invariant stream.Valid()
      invariant done == EncodeChunks(AllChunks(writes[..i], max)) && stream.tunnel.Sent() == start + done
    {
      var written, complete, partial := stream.Write(writes[i]);
      if !complete {
        return false;
      }
      assert writes[i][..written] == writes[i];
      Regroup(start, done, EncodeChunks(Chunks(writes[i], max)));
      OneMoreWrite(writes, i, max);
      done := done + EncodeChunks(Chunks(writes[i], max));
    }
    assert writes[..|writes|] == writes;
    var error, sent := WriteFrame(stream.protocol, stream.tunnel, last);
    ok := error.None?;
    Regroup(start, done, EncodeFrame(last));
    assert EncodeFrame(last) + [] == EncodeFrame(last);
  }

  lemma OneMoreWrite(writes: seq<bytes>, i: nat, max: nat)
    requires max > 0 && i < |writes|
    ensures EncodeChunks(AllChunks(writes[..i + 1], max))
         == EncodeChunks(AllChunks(writes[..i], max)) + EncodeChunks(Chunks(writes[i], max))
  {
    assert writes[..i + 1] == writes[..i] + [writes[i]];
    AllChunksSnoc(writes[..i], writes[i], max);
    EncodeChunksAppend(AllChunks(writes[..i], max), Chunks(writes[i], max));
  }

  lemma AllChunksSnoc(writes: seq<bytes>, payload: bytes, max: nat)
    requires max > 0
    ensures AllChunks(writes + [payload], max) == AllChunks(writes, max) + Chunks(payload, max)
  {
    if writes == [] {
      assert [payload][1..] == [];
      assert AllChunks([payload], max) == Chunks(payload, max) + AllChunks([], max);
    } else {
      assert (writes + [payload])[1..] == writes[1..] + [payload];
      AllChunksSnoc(writes[1..], payload, max);
      Regroup(Chunks(writes[0], max), AllChunks(writes[1..], max), Chunks(payload, max));
    }
  }

  /** A sequence of reads without a deadline gives the results the pipe lemmas speak of. */
  method ReadAll(stream: TrafficDataStream, sizes: seq<nat>) returns (results: seq<ReadResult>)
    requires stream.Valid()
    modifies stream, stream.tunnel`pendingRead, stream.tunnel`pendingReadOffset, stream.tunnel`inbound
    modifies stream.tunnel`cut, stream.tunnel`state, stream.tunnel`failed
    ensures stream.Valid() && |results| == |sizes|
    ensures !stream.tunnel.readDeadlineSet ==>
              ResultsAre(Reading(stream.protocol, EndError(old(stream.tunnel.EndsWith()))), old(stream.View()), sizes,
                         results)
  {
    ghost var read, start := Reading(stream.protocol, EndError(stream.tunnel.EndsWith())), stream.View();
    results := [];
    for i := 0 to |sizes|
      invariant stream.Valid() && |results| == i
      invariant !stream.tunnel.readDeadlineSet ==>
                  && stream.tunnel.EndsWith() == old(stream.tunnel.EndsWith())
                  && stream.View() == ReaderAfter(read, start, sizes, i) && ResultsAre(read, start, sizes, results)
    {
      ghost var before := stream.View();
      var result;
      ghost var late;
      result, late := stream.Read(sizes[i]);
      results := results + [result];
      if !stream.tunnel.readDeadlineSet {
        OneMoreResult(read, start, sizes, results, before, stream.View());
      }
    }
  }

  /** `results` are those of the first reads. */
  ghost predicate ResultsAre(read: ReadFn, start: Reader, sizes: seq<nat>, results: seq<ReadResult>) {
    |results| <= |sizes| && forall k :: 0 <= k < |results| ==> results[k] == ResultOf(read, start, sizes, k)
  }

  lemma OneMoreResult(read: ReadFn, start: Reader, sizes: seq<nat>, results: seq<ReadResult>, before: Reader,
                      after: Reader)
    requires 0 < |results| <= |sizes|
    ensures var i := |results| - 1;
            && before == ReaderAfter(read, start, sizes, i) && ResultsAre(read, start, sizes, results[..i])
            && read(before, sizes[i]) == (after, results[i])
            ==> after == ReaderAfter(read, start, sizes, i + 1) && ResultsAre(read, start, sizes, results)
  {
    var i := |results| - 1;
    if ResultsAre(read, start, sizes, results[..i]) {
      assert forall k :: 0 <= k < i ==> results[k] == results[..i][k];
    }
  }

  /** The bytes of a sequence of results. */
  function AllData(results: seq<ReadResult>): bytes {
    if results == [] then [] else AllData(results[..|results| - 1]) + DataOf(results[|results| - 1])
  }

  lemma {:induction false} ReceivedIs(read: ReadFn, start: Reader, sizes: seq<nat>, results: seq<ReadResult>, k: nat)
    requires k <= |results| && ResultsAre(read, start, sizes, results)
    ensures Received(read, start, sizes, k) == AllData(results[..k])
  {
    if k > 0 {
      ReceivedIs(read, start, sizes, results, k - 1);
      assert results[..k][..k - 1] == results[..k - 1];
    }
  }

  /** Read number `k` gave what it must, given what the reads before it gave. */
  ghost predicate InOrder(written: bytes, last: LastFrame, sizes: seq<nat>, results: seq<ReadResult>, k: nat)
    requires k < |sizes| && k < |results|
  {
    ReadOk(written, AllData(results[..k]), sizes[k], results[k], last)
  }

  lemma ResultsInOrder(protocol: Protocol, shortError: TrafficError, max: nat, writes: seq<bytes>, last: LastFrame,
                       sizes: seq<nat>, results: seq<ReadResult>, k: nat)
    requires Compatible(protocol, max) && protocol.Writable(last) && k < |sizes| == |results|
    requires ResultsAre(Reading(protocol, shortError), PipeStart(writes, max, last, []), sizes, results)
    ensures InOrder(Join(writes), last, sizes, results, k)
  {
    Pipe(protocol, shortError, max, writes, last, [], sizes, k);
    ReceivedIs(Reading(protocol, shortError), PipeStart(writes, max, last, []), sizes, results, k);
  }

  /**
   Both ends of the pipe: what is written to one stream object is what another reads, however the messages of the first
   tunnel are cut anew on the way to the second.
   */
  method SendAndReceive(writer: TrafficDataStream, writes: seq<bytes>, last: LastFrame, recut: seq<bytes> -> seq<bytes>,
                        sizes: seq<nat>)
    returns (ok: bool, results: seq<ReadResult>)
    requires writer.Valid() && writer.tunnel.Sent() == []
    requires Compatible(writer.protocol, writer.maxDataFrameSize) && writer.protocol.Writable(last)
    requires forall messages :: Join(recut(messages)) == Join(messages)
    modifies writer.tunnel`outbound, writer.tunnel`state, writer.tunnel`failed
    modifies writer.tunnel`inbound, writer.tunnel`cut
    ensures ok ==>
              |results| == |sizes| && forall k :: 0 <= k < |sizes| ==> InOrder(Join(writes), last, sizes, results, k)
  {
    results := [];
    ok := WriteAllAndEnd(writer, writes, last);
    if !ok {
      return;
    }
    var tunnel := new GRPCH2Tunnel(recut(writer.tunnel.outbound), PeerClosed);
    var reader := new TrafficDataStream(tunnel, writer.protocol, writer.maxDataFrameSize);
    ghost var end := EndError(tunnel.EndsWith());
    assert reader.View() == PipeStart(writes, writer.maxDataFrameSize, last, []);
    results := ReadAll(reader, sizes);
    forall k | 0 <= k < |sizes|
      ensures InOrder(Join(writes), last, sizes, results, k)
    {
      ResultsInOrder(writer.protocol, end, writer.maxDataFrameSize, writes, last, sizes, results, k);
    }
  }

  /** The chunk Write sends next after `written` bytes. */
  function NextChunk(payload: bytes, written: nat, max: nat): bytes
    requires written <= |payload|
  {
    payload[written..written + Min(max, |payload| - written)]
  }

  /** A whole number of chunks. */
  predicate Aligned(n: nat, max: nat)
    requires max > 0
  {
    n == 0 || (n >= max && Aligned(n - max, max))
  }

  lemma OneMoreChunk(start: bytes, payload: bytes, written: nat, max: nat)
    requires max > 0 && written < |payload| && Aligned(written, max)
    ensures var chunk := NextChunk(payload, written, max);
            && WithChunks(start, payload[..written + |chunk|], max)
               == WithChunks(start, payload[..written], max) + EncodeFrame(DataFrame(chunk))
            && (written + |chunk| == |payload| || Aligned(written + |chunk|, max))
  {
    var chunk := NextChunk(payload, written, max);
    ChunksSnoc(payload[..written], chunk, max);
    assert payload[..written] + chunk == payload[..written + |chunk|];
    EncodeChunksAppend(Chunks(payload[..written], max), [chunk]);
    assert EncodeChunks([chunk]) == EncodeFrame(DataFrame(chunk));
    Regroup(start, EncodeChunks(Chunks(payload[..written], max)), EncodeFrame(DataFrame(chunk)));
    if |chunk| == max {
      AlignedMore(written, max);
    }
  }

  lemma AlignedMore(n: nat, max: nat)
    requires max > 0 && Aligned(n, max)
    ensures Aligned(n + max, max)
  {
  }

  lemma {:induction false} ChunksSnoc(payload: bytes, chunk: bytes, max: nat)
    requires max > 0 && Aligned(|payload|, max) && 0 < |chunk| <= max
    ensures Chunks(payload + chunk, max) == Chunks(payload, max) + [chunk]
  {
    if payload == [] {
      assert payload + chunk == chunk;
    } else {
      assert (payload + chunk)[..max] == payload[..max] && (payload + chunk)[max..] == payload[max..] + chunk;
      ChunksSnoc(payload[max..], chunk, max);
      if |payload| == max {
        assert payload[..max] == payload && payload[max..] == [];
      }
    }
  }
}
