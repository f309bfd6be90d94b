/**
 Two ends together: what one end was given is what the other end hands out. The network between them delivers the bytes
 in order; how it cuts them into messages or reads does not matter.
 */
module EndToEnd {
  import opened Bytes
  import opened Results
  import opened ControlFragmentation
  import opened ReassemblyRoundTrip
  import opened QuicControl

  // ---------------------------------------------------------------------------------------------
  // The QUIC control channel
  // ---------------------------------------------------------------------------------------------

  ghost predicate AllSendable(config: QuicConfig, frames: seq<ControlFrame>) {
    forall j :: 0 <= j < |frames| ==> Sendable(config, frames[j])
  }

  /** Writes one frame that the fragmenter accepts. */
  method Send(channel: QuicControlChannel, frame: ControlFrame, timed: bool) returns (ok: bool)
    requires channel.Valid() && Sendable(channel.config, frame)
    modifies channel`closed, channel.stream`outgoing, channel.fragmenter
    ensures channel.Valid()
    ensures ok ==> OneWritten(channel.config, old(channel.fragmenter.nextMessageID), frame,
                              old(channel.stream.outgoing),
                              channel.fragmenter.nextMessageID, channel.stream.outgoing)
  {
    ghost var counter := channel.fragmenter.nextMessageID;
    SplitsOk(channel.config, counter, frame);
    var result, sent := channel.WriteControlFrame(frame, timed);
    ok := result == Written;
    TakeAll(EncodeFrames(SplitFrame(channel.config, counter, frame).value));
  }

  lemma TakeAll(wire: bytes)
    ensures wire[..|wire|] == wire
  {
  }

  lemma SplitsOk(config: QuicConfig, counter: uint64, frame: ControlFrame)
    requires Sendable(config, frame)
    ensures SplitFrame(config, counter, frame).Ok?
  {
  }

  /** The channel wrote all parts of one frame and moved its counter. */
  ghost predicate OneWritten(config: QuicConfig, counter: uint64, frame: ControlFrame, before: bytes, counter': uint64,
                             after: bytes)
  {
    && SplitFrame(config, counter, frame).Ok?
    && after == before + EncodeFrames(SplitFrame(config, counter, frame).value)
    && counter' == CounterAfter(config, counter, frame)
  }

  /** The channel wrote all parts of all frames. */
  ghost predicate AllWritten(config: QuicConfig, counter: uint64, frames: seq<ControlFrame>, before: bytes,
                             after: bytes)
    requires AllSendable(config, frames)
  {
    after == before + WrittenBytes(config, Counters(config, counter, frames), frames)
  }

  lemma OneAndAll(config: QuicConfig, counter: uint64, frames: seq<ControlFrame>, before: bytes, counter': uint64,
                  between: bytes, after: bytes)
    requires frames != [] && AllSendable(config, frames)
    requires OneWritten(config, counter, frames[0], before, counter', between)
    requires AllWritten(config, counter', frames[1..], between, after)
    ensures AllWritten(config, counter, frames, before, after)
  {
  }

  /** Writes frames one after the other until one is not written. */
  method SendAll(channel: QuicControlChannel, frames: seq<ControlFrame>, timed: bool) returns (ok: bool)
    requires channel.Valid() && AllSendable(channel.config, frames)
    modifies channel`closed, channel.stream`outgoing, channel.fragmenter
    ensures channel.Valid()
    ensures ok ==> AllWritten(channel.config, old(channel.fragmenter.nextMessageID), frames,
                              old(channel.stream.outgoing), channel.stream.outgoing)
    decreases |frames|
  {
    if frames == [] {
      return true;
    }
    ghost var counter, before := channel.fragmenter.nextMessageID, channel.stream.outgoing;
    ok := Send(channel, frames[0], timed);
    if ok {
      ghost var counter', between := channel.fragmenter.nextMessageID, channel.stream.outgoing;
      ok := SendAll(channel, frames[1..], timed);
      if ok {
        OneAndAll(channel.config, counter, frames, before, counter', between, channel.stream.outgoing);
      }
    }
  }

  /** Up to `n` reads: the first error closes the channel, and is the last result. */
  function ReadOn<S>(max: nat, step: Step<S>, clock: nat -> int, reader: Reader<S>, n: nat)
    : (Reader<S>, seq<ReadResult>)
    decreases n
  {
    if n == 0 then (reader, [])
    else
      var (next, result) := ReadSpec(max, step, clock, reader);
      if !result.Got? then (next, [result])
      else
        var (last, results) := ReadOn(max, step, clock, next, n - 1);
        (last, [result] + results)
  }

  /** If no read meets an error, all of them are done. */
  lemma {:induction false} ReadsOnToTheEnd<S>(max: nat, step: Step<S>, clock: nat -> int, reader: Reader<S>, n: nat)
    requires forall k :: 0 <= k < |ReadMany(max, step, clock, reader, n).1| ==>
               ReadMany(max, step, clock, reader, n).1[k].Got?
    ensures ReadOn(max, step, clock, reader, n) == ReadMany(max, step, clock, reader, n)
    decreases n
  {
    if n > 0 {
      ReadManyStep(max, step, clock, reader, n);
      var (next, result) := ReadSpec(max, step, clock, reader);
      var later := ReadMany(max, step, clock, next, n - 1).1;
      assert ([result] + later)[0] == result;
      assert forall k :: 0 <= k < |later| ==> later[k] == ([result] + later)[k + 1];
      ReadsOnToTheEnd(max, step, clock, next, n - 1);
    }
  }

  /** `results` are what up to `n` reads give, and `last` is where they end. */
  ghost predicate ReadWell<S>(max: nat, step: Step<S>, clock: nat -> int, start: Reader<S>, n: nat,
                              results: seq<ReadResult>, last: Reader<S>)
  {
    results == ReadOn(max, step, clock, start, n).1 && last == ReadOn(max, step, clock, start, n).0
  }

  lemma NoReads<S>(max: nat, step: Step<S>, clock: nat -> int, start: Reader<S>)
    ensures ReadWell(max, step, clock, start, 0, [], start)
  {
  }

  lemma OneMoreRead<S>(max: nat, step: Step<S>, clock: nat -> int, start: Reader<S>, n: nat, result: ReadResult,
                             trace: seq<Reader<S>>, dropped: nat, next: Reader<S>, rest: seq<ReadResult>,
                             last: Reader<S>)
    requires n > 0 && result != TimedOut && Answers(max, step, clock, start, result, trace, dropped, next)
    ensures (if result.Got? then ReadWell(max, step, clock, next, n - 1, rest, last) else last == next) ==>
              ReadWell(max, step, clock, start, n, if result.Got? then [result] + rest else [result], last)
  {
  }

  /** The channel is where up to `n` reads from `start` lead, and `results` are what they give. */
  ghost predicate HasRead(channel: QuicControlChannel, start: Reader<Assemblies>, n: nat, results: seq<ReadResult>)
    reads channel, channel.reassembler, channel.reassembler.assemblies.Values, channel.stream
  {
    ReadWell(channel.config.maxPayloadSize, Reassembling(channel.config), channel.clock, start, n, results,
             channel.View())
  }

  /** One of `n` reads, without a deadline: whatever the others do, it is the first. */
  method Receive(channel: QuicControlChannel, ghost n: nat) returns (result: ReadResult)
    requires channel.Valid() && !channel.closed && n > 0
    modifies channel`ticks, channel`closed, channel.stream`incoming
    modifies channel.reassembler, channel.reassembler.assemblies.Values
    ensures channel.Valid() && (channel.closed <==> !result.Got?)
    ensures fresh(channel.reassembler.assemblies.Values - old(channel.reassembler.assemblies.Values))
    ensures ReadsFirst(channel.config, channel.clock, old(channel.View()), n, result, channel.View())
  {
    ghost var trace, dropped;
    result, trace, dropped := channel.ReadControlFrame(false);
    FirstRead(channel.config, channel.clock, old(channel.View()), n, result, trace, dropped, channel.View());
  }

  /** The other reads, which there are only if `result` is no error. */
  ghost predicate GoesOnWell(config: QuicConfig, clock: nat -> int, next: Reader<Assemblies>, n: nat,
                             result: ReadResult, rest: seq<ReadResult>, last: Reader<Assemblies>)
    requires n > 0
  {
    if result.Got? then ReadWell(config.maxPayloadSize, Reassembling(config), clock, next, n - 1, rest, last)
    else last == next
  }

  /** Reading on from `next` completes what `result` began at `start`. */
  ghost predicate ReadsFirst(config: QuicConfig, clock: nat -> int, start: Reader<Assemblies>, n: nat,
                             result: ReadResult, next: Reader<Assemblies>)
    requires n > 0
  {
    forall rest, last :: GoesOnWell(config, clock, next, n, result, rest, last) ==>
        ReadWell(config.maxPayloadSize, Reassembling(config), clock, start, n,
                 if result.Got? then [result] + rest else [result], last)
  }

  lemma FirstRead(config: QuicConfig, clock: nat -> int, start: Reader<Assemblies>, n: nat, result: ReadResult,
                  trace: seq<Reader<Assemblies>>, dropped: nat, next: Reader<Assemblies>)
    requires n > 0 && result != TimedOut
    requires Answers(config.maxPayloadSize, Reassembling(config), clock, start, result, trace, dropped, next)
    ensures ReadsFirst(config, clock, start, n, result, next)
  {
    forall rest, last | GoesOnWell(config, clock, next, n, result, rest, last)
      ensures
        ReadWell(config.maxPayloadSize, Reassembling(config), clock, start, n,
                 if result.Got? then [result] + rest else [result], last)
    {
      OneMoreRead(config.maxPayloadSize, Reassembling(config), clock, start, n, result, trace, dropped, next, rest,
                  last);
    }
  }

  /** Reads up to `n` frames, without a deadline: all of them, or up to and including the first error. */
  method ReceiveAll(channel: QuicControlChannel, n: nat) returns (results: seq<ReadResult>)
    requires channel.Valid() && !channel.closed
    modifies channel`ticks, channel`closed, channel.stream`incoming
    modifies channel.reassembler, channel.reassembler.assemblies.Values
    ensures channel.Valid()
    ensures fresh(channel.reassembler.assemblies.Values - old(channel.reassembler.assemblies.Values))
    ensures HasRead(channel, old(channel.View()), n, results)
    decreases n
  {
    if n == 0 {
      NoReads(channel.config.maxPayloadSize, Reassembling(channel.config), channel.clock, channel.View());
      return [];
    }
    var result := Receive(channel, n);
    if !result.Got? {
      assert GoesOnWell(channel.config, channel.clock, channel.View(), n, result, [], channel.View());
      return [result];
    }
    ghost var next := channel.View();
    var rest := ReceiveAll(channel, n - 1);
    assert GoesOnWell(channel.config, channel.clock, next, n, result, rest, channel.View());
    results := [result] + rest;
  }

  /**
   Frames sent on one QUIC control channel come out of the other: exactly they, in order, with no byte left on the
   stream and no message half assembled, whatever pieces the stream moves them in.
   */
  method SendAndReceive(sender: QuicControlChannel, receiver: QuicControlChannel, frames: seq<ControlFrame>,
                        timed: bool)
    returns (ok: bool, results: seq<ReadResult>)
    requires sender.Valid() && receiver.Valid() && sender.config == receiver.config && !receiver.closed
    requires sender != receiver && sender.stream != receiver.stream && AllSendable(sender.config, frames)
    requires SteadyClock(receiver.config, receiver.clock)
    requires sender.stream.outgoing == [] && receiver.stream.incoming == [] && receiver.reassembler.View() == map[]
    modifies sender`closed, sender.stream`outgoing, sender.fragmenter
    modifies receiver`ticks, receiver`closed, receiver.stream`incoming
    modifies receiver.reassembler, receiver.reassembler.assemblies.Values
    ensures ok ==> && results == AllGot(frames)
                   && receiver.stream.incoming == [] && receiver.reassembler.View() == map[]
  {
    results := [];
    ghost var config, counters := sender.config, Counters(sender.config, sender.fragmenter.nextMessageID, frames);
    ok := SendAll(sender, frames, timed);
    if ok {
      receiver.stream.incoming := sender.stream.outgoing;
      ghost var start := receiver.View();
      WireRoundTrip(config, receiver.clock, counters, frames, start);
      ReadsOnToTheEnd(config.maxPayloadSize, Reassembling(config), receiver.clock, start, |frames|);
      results := ReceiveAll(receiver, |frames|);
    }
  }
}
