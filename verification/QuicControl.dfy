/**
 The QUIC control channel (ltfp/transport/quicbinding/control_channel.go): control frames as a byte stream, with the
 fragmenter on the writing side and the reassembler on the reading side.
 */
module QuicControl {
  import opened Bytes
  import opened Results
  import opened ControlFragmentation
  import opened ReassemblySafety
  import opened ReassemblyRoundTrip

  const CONTROL_HEADER_SIZE := 6

  /** The transport configuration keeps the frame limit within the 32-bit length field. */
  type QuicConfig = c: Config | c.Valid() && c.maxPayloadSize <= 0xFFFF_FFFF
    witness Config(DEFAULT_MAX_PAYLOAD_SIZE, DEFAULT_REASSEMBLY_TTL, DEFAULT_MAX_IN_FLIGHT)

  // ---------------------------------------------------------------------------------------------
  // One frame on the wire
  // ---------------------------------------------------------------------------------------------

  function EncodeFrameHeader(frame: ControlFrame): bytes {
    BE16(frame.frameType) + BE32(|frame.payload| % 0x1_0000_0000)
  }

  function EncodeFrame(frame: ControlFrame): bytes {
    EncodeFrameHeader(frame) + frame.payload
  }

  datatype ParseResult = Parsed(frame: ControlFrame, rest: bytes) | TooLarge | EndOfStream

  function ParseFrame(maxPayloadSize: nat, wire: bytes): ParseResult {
    if |wire| < CONTROL_HEADER_SIZE then EndOfStream
    else
      var payloadSize := FromBE32(wire[2..6]);
      if payloadSize > maxPayloadSize then TooLarge
      else if |wire| < CONTROL_HEADER_SIZE + payloadSize then EndOfStream
      else Parsed(ControlFrame(FromBE16(wire[0..2]), wire[6..6 + payloadSize]), wire[6 + payloadSize..])
  }

  lemma ParseInvertsEncode(maxPayloadSize: nat, frame: ControlFrame, rest: bytes)
    requires |frame.payload| <= maxPayloadSize <= 0xFFFF_FFFF
    ensures ParseFrame(maxPayloadSize, EncodeFrame(frame) + rest) == Parsed(frame, rest)
  {
    var wire := EncodeFrame(frame) + rest;
    assert wire[0..2] == BE16(frame.frameType) && wire[2..6] == BE32(|frame.payload|);
    BE16Bijective(frame.frameType, wire[0..2]);
    BE32Bijective(|frame.payload|, wire[2..6]);
    assert wire[6..6 + |frame.payload|] == frame.payload;
    assert wire[6 + |frame.payload|..] == rest;
  }

  /** Any frame that the length field can describe is read back or, above the limit, refused. */
  lemma ParseAnyFrame(maxPayloadSize: nat, frame: ControlFrame, rest: bytes)
    requires |frame.payload| <= 0xFFFF_FFFF
    ensures ParseFrame(maxPayloadSize, EncodeFrame(frame) + rest)
         == if |frame.payload| <= maxPayloadSize then Parsed(frame, rest) else TooLarge
    ensures (EncodeFrame(frame) + rest)[6..] == frame.payload + rest
  {
    var wire := EncodeFrame(frame) + rest;
    assert wire[0..2] == BE16(frame.frameType) && wire[2..6] == BE32(|frame.payload|);
    BE16Bijective(frame.frameType, wire[0..2]);
    BE32Bijective(|frame.payload|, wire[2..6]);
    assert wire[6..] == frame.payload + rest;
    assert wire[6..6 + |frame.payload|] == frame.payload && wire[6 + |frame.payload|..] == rest;
  }

  /** A frame within the limit that is cut off is not read, and not mistaken for another one. */
  lemma ParseCutFrame(maxPayloadSize: nat, frame: ControlFrame, n: nat)
    requires |frame.payload| <= maxPayloadSize && |frame.payload| <= 0xFFFF_FFFF && n < |EncodeFrame(frame)|
    ensures ParseFrame(maxPayloadSize, EncodeFrame(frame)[..n]) == EndOfStream
  {
    var wire := EncodeFrame(frame)[..n];
    if n >= 6 {
      assert wire[2..6] == BE32(|frame.payload|);
      BE32Bijective(|frame.payload|, wire[2..6]);
    }
  }

  // ---------------------------------------------------------------------------------------------
  // The channel as a function of bytes and clock readings
  // ---------------------------------------------------------------------------------------------

  /** A read that ran out of time gives no frame and leaves the channel open; an error closes it. */
  datatype ReadResult = Got(frame: ControlFrame) | Broken(error: Option<FragmentError>) | TimedOut

  /** The reading side: the reassembler's state, unread bytes, and how often the clock has been read. */
  datatype Reader<S> = Reader(state: S, wire: bytes, ticks: nat)

  /** How the reassembler answers one frame; the read loop does not depend on how it does that. */
  type Step<!S> = (S, ControlFrame, int) -> (S, Outcome)

  function Reassembling(config: QuicConfig): Step<Assemblies> {
    (assemblies: Assemblies, frame: ControlFrame, now: int) => ReassembleStep(config, assemblies, frame, now)
  }

  function ResultOf(outcome: Outcome): Option<ReadResult> {
    match outcome
    case Ready(frame) => Some(Got(frame))
    case Failed(e) => Some(Broken(Some(e)))
    case NotReady => None
  }

  /** One round of the read loop; no result means that the loop goes on. */
  function RoundSpec<S>(max: nat, step: Step<S>, clock: nat -> int, reader: Reader<S>)
    : (r: (Reader<S>, Option<ReadResult>))
    ensures r.1.None? ==> |r.0.wire| < |reader.wire|
  {
    match ParseFrame(max, reader.wire)
    case EndOfStream => (reader.(wire := []), Some(Broken(None)))
    case TooLarge => (reader.(wire := reader.wire[6..]), Some(Broken(None)))
    case Parsed(frame, rest) =>
      var (state, outcome) := step(reader.state, frame, clock(reader.ticks));
      (Reader(state, rest, reader.ticks + 1), ResultOf(outcome))
  }

  /** One call of ReadControlFrame: frames are parsed and fed to the reassembler until one is ready. */
  function ReadSpec<S>(max: nat, step: Step<S>, clock: nat -> int, reader: Reader<S>): (Reader<S>, ReadResult)
    decreases |reader.wire|
  {
    var (next, result) := RoundSpec(max, step, clock, reader);
    if result.Some? then (next, result.value) else ReadSpec(max, step, clock, next)
  }

  /** The bytes of a sequence of wire frames. */
  function EncodeFrames(frames: seq<ControlFrame>): bytes {
    if frames == [] then [] else EncodeFrame(frames[0]) + EncodeFrames(frames[1..])
  }

  /**
   What writing `frames` in this order puts on the wire, for frames the fragmenter accepts; `counters` are the message
   counters they are fragmented at. Fragmenting comes before the write lock, so with several writers the counters need
   not be in the order of the writes.
   */
  function WrittenBytes(config: QuicConfig, counters: seq<uint64>, frames: seq<ControlFrame>): bytes
    requires |counters| == |frames| && forall j :: 0 <= j < |frames| ==> Sendable(config, frames[j])
    decreases |frames|
  {
    if frames == [] then []
    else
      assert Sendable(config, frames[0]);
      EncodeFrames(SplitFrame(config, counters[0], frames[0]).value) + WrittenBytes(config, counters[1..], frames[1..])
  }

  /** The counters of a single writer that starts at `counter`. */
  function Counters(config: QuicConfig, counter: uint64, frames: seq<ControlFrame>): (counters: seq<uint64>)
    ensures |counters| == |frames|
    decreases |frames|
  {
    if frames == [] then [] else [counter] + Counters(config, CounterAfter(config, counter, frames[0]), frames[1..])
  }

  /** The outcomes of `n` calls of ReadControlFrame. */
  function ReadMany<S>(max: nat, step: Step<S>, clock: nat -> int, reader: Reader<S>, n: nat)
    : (Reader<S>, seq<ReadResult>)
    decreases n
  {
    if n == 0 then (reader, [])
    else
      var (next, result) := ReadSpec(max, step, clock, reader);
      var (last, results) := ReadMany(max, step, clock, next, n - 1);
      (last, [result] + results)
  }

  /** Consecutive clock readings are never further apart than the reassembly TTL. */
  ghost predicate SteadyClock(config: QuicConfig, clock: nat -> int) {
    forall t: nat :: SteadyAt(config, clock, t)
  }

  predicate SteadyAt(config: QuicConfig, clock: nat -> int, t: nat) {
    clock(t + 1) - clock(t) <= config.reassemblyTTL
  }

  // ---------------------------------------------------------------------------------------------
  // Round trip
  // ---------------------------------------------------------------------------------------------

  /** One round on a well-formed frame hands it to the reassembler and consumes exactly its bytes. */
  lemma OneRound<S>(max: nat, step: Step<S>, clock: nat -> int, part: ControlFrame, later: bytes, reader: Reader<S>)
    requires |part.payload| <= max <= 0xFFFF_FFFF
    requires reader.wire == EncodeFrame(part) + later
    ensures RoundSpec(max, step, clock, reader).0.state == step(reader.state, part, clock(reader.ticks)).0
    ensures RoundSpec(max, step, clock, reader).0.wire == later
    ensures RoundSpec(max, step, clock, reader).0.ticks == reader.ticks + 1
    ensures RoundSpec(max, step, clock, reader).1 == ResultOf(step(reader.state, part, clock(reader.ticks)).1)
  {
    ParseInvertsEncode(max, part, later);
  }

  /**
   What the frame at the start of the wire makes of a read: within the limit it goes to the reassembler, whose frame or
   error is the result, and the read goes on if there is neither; above the limit it ends the read, its payload unread;
   and a frame that is cut off ends it with nothing left.
   */
  lemma FirstFrameDecides<S>(max: nat, step: Step<S>, clock: nat -> int, frame: ControlFrame, rest: bytes, n: nat,
                             reader: Reader<S>)
    requires |frame.payload| <= 0xFFFF_FFFF && reader.wire == EncodeFrame(frame) + rest && n < |EncodeFrame(frame)|
    ensures |frame.payload| > max ==>
              ReadSpec(max, step, clock, reader) == (reader.(wire := frame.payload + rest), Broken(None))
    ensures |frame.payload| <= max ==>
              var (state, outcome) := step(reader.state, frame, clock(reader.ticks));
              var next := Reader(state, rest, reader.ticks + 1);
              ReadSpec(max, step, clock, reader) ==
                match outcome
                case Ready(ready) => (next, Got(ready))
                case Failed(e) => (next, Broken(Some(e)))
                case NotReady => ReadSpec(max, step, clock, next)
    ensures |frame.payload| <= max ==>
              ReadSpec(max, step, clock, reader.(wire := EncodeFrame(frame)[..n]))
              == (reader.(wire := []), Broken(None))
  {
    ParseAnyFrame(max, frame, rest);
    if |frame.payload| <= max {
      ParseCutFrame(max, frame, n);
    }
  }

  /** Wire frame `i`, read at tick `ticks + i`, moves the reassembler along `state`; the last makes `frame` ready. */
  ghost predicate Moves<S>(step: Step<S>, clock: nat -> int, parts: seq<ControlFrame>, state: nat -> S,
                           frame: ControlFrame, ticks: nat, i: nat)
    requires i < |parts|
  {
    && step(state(i), parts[i], clock(ticks + i)).0 == state(i + 1)
    && step(state(i), parts[i], clock(ticks + i)).1 == if i + 1 == |parts| then Ready(frame) else NotReady
  }

  /** One round leads from `before` to `after` without ending the read. */
  ghost predicate GoesOn<S>(max: nat, step: Step<S>, clock: nat -> int, before: Reader<S>, after: Reader<S>) {
    RoundSpec(max, step, clock, before).0 == after && RoundSpec(max, step, clock, before).1 == None
  }

  lemma RoundKeepsRead<S>(max: nat, step: Step<S>, clock: nat -> int, before: Reader<S>, after: Reader<S>)
    requires GoesOn(max, step, clock, before, after)
    ensures ReadSpec(max, step, clock, after) == ReadSpec(max, step, clock, before)
  {
  }

  lemma NextOnWire(parts: seq<ControlFrame>, i: nat, tail: bytes)
    requires i < |parts|
    ensures EncodeFrames(parts[i..]) + tail == EncodeFrame(parts[i]) + (EncodeFrames(parts[i + 1..]) + tail)
    ensures i + 1 == |parts| ==> EncodeFrames(parts[i + 1..]) == []
  {
    assert parts[i..][1..] == parts[i + 1..];
  }

  /**
   Reading wire frames of which only the last makes a frame ready gives that frame, consumes exactly their bytes and
   leaves the reassembler where the last of them does.
   */
  lemma {:induction false} ReadRun<S>(max: nat, step: Step<S>, clock: nat -> int, parts: seq<ControlFrame>,
                                      state: nat -> S, frame: ControlFrame, ticks: nat, i: nat, tail: bytes,
                                      reader: Reader<S>)
    requires max <= 0xFFFF_FFFF && i < |parts|
    requires forall k :: 0 <= k < |parts| ==> |parts[k].payload| <= max
    requires forall k :: 0 <= k < |parts| ==> Moves(step, clock, parts, state, frame, ticks, k)
    requires reader.state == state(i) && reader.ticks == ticks + i && reader.wire == EncodeFrames(parts[i..]) + tail
    ensures ReadSpec(max, step, clock, reader).0.state == state(|parts|)
    ensures ReadSpec(max, step, clock, reader).0.wire == tail
    ensures ReadSpec(max, step, clock, reader).1 == Got(frame)
    decreases |parts| - i
  {
    var later := EncodeFrames(parts[i + 1..]) + tail;
    NextOnWire(parts, i, tail);
    OneRound(max, step, clock, parts[i], later, reader);
    assert Moves(step, clock, parts, state, frame, ticks, i);
    var next := RoundSpec(max, step, clock, reader).0;
    if i + 1 < |parts| {
      RoundKeepsRead(max, step, clock, reader, next);
      ReadRun(max, step, clock, parts, state, frame, ticks, i + 1, tail, next);
    } else {
      assert later == tail;
    }
  }

  /** The assemblies after `i` parts of the frame being read. */
  function Midway(config: QuicConfig, frame: ControlFrame, id: uint64, i: nat, last: int): Assemblies
    requires Splittable(config, frame)
  {
    if i == 0 || i == PartCount(config, |frame.payload|) then map[]
    else map[id := Picture(config, frame, UpTo(i), last)]
  }

  lemma SingletonMaps(id: uint64, a: AssemblyState, b: AssemblyState)
    ensures var none: Assemblies := map[];
            && none - {id} == none && map[id := a] - {id} == none
            && none[id := b] == map[id := b] && map[id := a][id := b] == map[id := b]
  {
  }

  lemma NextUpTo(i: nat, n: nat)
    requires i < n
    ensures UpTo(i) <= UpTo(n) && UpTo(i) + {i} == UpTo(i + 1)
    ensures UpTo(i + 1) == UpTo(n) <==> i + 1 == n
  {
    UpToHas(i);
    UpToHas(i + 1);
    UpToHas(n);
  }

  lemma MidwayStep(config: QuicConfig, frame: ControlFrame, id: uint64, i: nat, last: int, now: int)
    requires Splittable(config, frame) && i < PartCount(config, |frame.payload|)
    ensures ReassembleFragment(config, Midway(config, frame, id, i, last), PartHeader(config, frame, id, i),
                               Chunk(frame.payload, PartSize(config), i), now)
         == (Midway(config, frame, id, i + 1, now),
             if i + 1 == PartCount(config, |frame.payload|) then Ready(frame) else NotReady)
  {
    NextUpTo(i, PartCount(config, |frame.payload|));
    FragmentStep(config, Midway(config, frame, id, i, last), frame, id, UpTo(i), i, last, now);
    SingletonMaps(id, Picture(config, frame, UpTo(i), last), Picture(config, frame, UpTo(i + 1), now));
  }

  lemma MidwayUnexpired(config: QuicConfig, frame: ControlFrame, id: uint64, i: nat, last: int, now: int)
    requires Splittable(config, frame)
    requires i > 0 ==> now - last <= config.reassemblyTTL
    ensures Unexpired(config, Midway(config, frame, id, i, last), now) == Midway(config, frame, id, i, last)
  {
  }

  lemma ReadPart(config: QuicConfig, frame: ControlFrame, id: uint64, i: nat, last: int, now: int)
    requires Splittable(config, frame) && i < PartCount(config, |frame.payload|)
    requires i > 0 ==> now - last <= config.reassemblyTTL
    ensures ReassembleStep(config, Midway(config, frame, id, i, last), PartFrame(config, frame, id, i), now)
         == (Midway(config, frame, id, i + 1, now),
             if i + 1 == PartCount(config, |frame.payload|) then Ready(frame) else NotReady)
  {
    MidwayUnexpired(config, frame, id, i, last, now);
    StepOnPart(config, Midway(config, frame, id, i, last), frame, id, i, now);
    MidwayStep(config, frame, id, i, last, now);
  }

  /** `parts` are the wire frames of a split frame, all within the frame limit. */
  ghost predicate PartsOf(config: QuicConfig, frame: ControlFrame, id: uint64, parts: seq<ControlFrame>)
    requires Splittable(config, frame)
  {
    && |parts| == PartCount(config, |frame.payload|) > 0
    && forall i :: 0 <= i < |parts| ==>
         parts[i] == PartFrame(config, frame, id, i) && |parts[i].payload| <= config.maxPayloadSize
  }

  lemma SplitGivesParts(config: QuicConfig, counter: uint64, frame: ControlFrame)
    requires Splittable(config, frame)
    ensures SplitFrame(config, counter, frame).Ok?
    ensures PartsOf(config, frame, NextID(counter), SplitFrame(config, counter, frame).value)
  {
    var parts := SplitFrame(config, counter, frame).value;
    ChunksCover(config, frame.payload);
    forall i | 0 <= i < |parts|
      ensures |parts[i].payload| <= config.maxPayloadSize
    {
      ChunkBounds(config, frame.payload, i);
    }
  }

  /** Fed with `parts` from tick `ticks` on, the reassembler goes from `idle` back to `idle` and hands out `frame`. */
  ghost predicate Rebuilds<S(!new)>(step: Step<S>, clock: nat -> int, idle: S, parts: seq<ControlFrame>,
                                    frame: ControlFrame, ticks: nat)
  {
    exists state: nat -> S ::
      state(0) == idle && state(|parts|) == idle && AllMove(step, clock, parts, state, frame, ticks)
  }

  ghost predicate AllMove<S>(step: Step<S>, clock: nat -> int, parts: seq<ControlFrame>, state: nat -> S,
                             frame: ControlFrame, ticks: nat)
  {
    forall k :: 0 <= k < |parts| ==> Moves(step, clock, parts, state, frame, ticks, k)
  }

  /** The assemblies before part `i` of a split frame read from tick `ticks` on. */
  function MidwayAt(config: QuicConfig, clock: nat -> int, frame: ControlFrame, id: uint64, ticks: nat, i: nat)
    : Assemblies
    requires Splittable(config, frame)
  {
    Midway(config, frame, id, i, if i == 0 then 0 else clock(ticks + i - 1))
  }

  lemma PartMoves(config: QuicConfig, clock: nat -> int, frame: ControlFrame, id: uint64, parts: seq<ControlFrame>,
                  state: nat -> Assemblies, ticks: nat, i: nat)
    requires Splittable(config, frame) && SteadyClock(config, clock)
    requires i < |parts| == PartCount(config, |frame.payload|) && parts[i] == PartFrame(config, frame, id, i)
    requires state(i) == MidwayAt(config, clock, frame, id, ticks, i)
    requires state(i + 1) == MidwayAt(config, clock, frame, id, ticks, i + 1)
    ensures Moves(Reassembling(config), clock, parts, state, frame, ticks, i)
  {
    if i > 0 {
      var before: nat := ticks + i - 1;
      assert SteadyAt(config, clock, before);
    }
    ReadPart(config, frame, id, i, if i == 0 then 0 else clock(ticks + i - 1), clock(ticks + i));
  }

  lemma SplitRebuilds(config: QuicConfig, clock: nat -> int, frame: ControlFrame, id: uint64,
                      parts: seq<ControlFrame>, ticks: nat)
    requires Splittable(config, frame) && PartsOf(config, frame, id, parts) && SteadyClock(config, clock)
    ensures Rebuilds(Reassembling(config), clock, map[], parts, frame, ticks)
  {
    var state: nat -> Assemblies := (i: nat) => MidwayAt(config, clock, frame, id, ticks, i);
    assert state(0) == map[] && state(|parts|) == map[];
    PartsMove(config, clock, frame, id, parts, state, ticks);
    MovesRebuild(Reassembling(config), clock, map[], parts, state, frame, ticks);
  }

  lemma PartsMove(config: QuicConfig, clock: nat -> int, frame: ControlFrame, id: uint64, parts: seq<ControlFrame>,
                  state: nat -> Assemblies, ticks: nat)
    requires Splittable(config, frame) && PartsOf(config, frame, id, parts) && SteadyClock(config, clock)
    requires forall i: nat :: state(i) == MidwayAt(config, clock, frame, id, ticks, i)
    ensures AllMove(Reassembling(config), clock, parts, state, frame, ticks)
  {
    forall k | 0 <= k < |parts|
      ensures Moves(Reassembling(config), clock, parts, state, frame, ticks, k)
    {
      PartMoves(config, clock, frame, id, parts, state, ticks, k);
    }
  }

  lemma MovesRebuild<S(!new)>(step: Step<S>, clock: nat -> int, idle: S, parts: seq<ControlFrame>, state: nat -> S,
                              frame: ControlFrame, ticks: nat)
    ensures state(0) == idle && state(|parts|) == idle && AllMove(step, clock, parts, state, frame, ticks)
            ==> Rebuilds(step, clock, idle, parts, frame, ticks)
  {
  }

  /** What the fragmenter makes of a frame, the reassembler turns back into that frame. */
  lemma ReassemblerRebuilds(config: QuicConfig, clock: nat -> int, counter: uint64, frame: ControlFrame, ticks: nat)
    requires Sendable(config, frame) && SteadyClock(config, clock)
    ensures SplitFrame(config, counter, frame).Ok? && SplitFrame(config, counter, frame).value != []
    ensures Rebuilds(Reassembling(config), clock, map[], SplitFrame(config, counter, frame).value, frame, ticks)
    ensures forall k :: 0 <= k < |SplitFrame(config, counter, frame).value| ==>
              |SplitFrame(config, counter, frame).value[k].payload| <= config.maxPayloadSize
  {
    if Small(config, frame) {
      var state: nat -> Assemblies := (i: nat) => map[];
      assert Moves(Reassembling(config), clock, [frame], state, frame, ticks, 0);
      MovesRebuild(Reassembling(config), clock, map[], [frame], state, frame, ticks);
      assert Rebuilds(Reassembling(config), clock, map[], [frame], frame, ticks);
    } else {
      SplitGivesParts(config, counter, frame);
      SplitRebuilds(config, clock, frame, NextID(counter), SplitFrame(config, counter, frame).value, ticks);
    }
  }

  /** Reading back one written frame consumes exactly its bytes and leaves nothing half assembled. */
  lemma ReadOne<S(!new)>(max: nat, step: Step<S>, clock: nat -> int, parts: seq<ControlFrame>, frame: ControlFrame,
                         tail: bytes, reader: Reader<S>)
    requires max <= 0xFFFF_FFFF && parts != [] && forall k :: 0 <= k < |parts| ==> |parts[k].payload| <= max
    requires Rebuilds(step, clock, reader.state, parts, frame, reader.ticks)
    requires reader.wire == EncodeFrames(parts) + tail
    ensures ReadSpec(max, step, clock, reader).0.state == reader.state
    ensures ReadSpec(max, step, clock, reader).0.wire == tail
    ensures ReadSpec(max, step, clock, reader).1 == Got(frame)
  {
    var state: nat -> S :| state(0) == reader.state && state(|parts|) == reader.state
      && AllMove(step, clock, parts, state, frame, reader.ticks);
    assert parts[0..] == parts;
    ReadRun(max, step, clock, parts, state, frame, reader.ticks, 0, tail, reader);
  }

  function AllGot(frames: seq<ControlFrame>): seq<ReadResult> {
    seq(|frames|, j requires 0 <= j < |frames| => Got(frames[j]))
  }

  /** Whatever the fragmenter makes of an accepted frame, the reassembler, idle, turns back into it. */
  ghost predicate Faithful<S(!new)>(config: QuicConfig, step: Step<S>, clock: nat -> int, idle: S) {
    forall counter, frame, ticks: nat ::
      Sendable(config, frame) ==> FaithfulOn(config, step, clock, idle, counter, frame, ticks)
  }

  ghost predicate FaithfulOn<S(!new)>(config: QuicConfig, step: Step<S>, clock: nat -> int, idle: S, counter: uint64,
                                      frame: ControlFrame, ticks: nat)
  {
    match SplitFrame(config, counter, frame)
    case Err(_) => false
    case Ok(parts) =>
      && parts != [] && (forall k :: 0 <= k < |parts| ==> |parts[k].payload| <= config.maxPayloadSize)
      && Rebuilds(step, clock, idle, parts, frame, ticks)
  }

  lemma ReassemblerIsFaithful(config: QuicConfig, clock: nat -> int)
    requires SteadyClock(config, clock)
    ensures Faithful(config, Reassembling(config), clock, map[])
  {
    forall counter, frame, ticks: nat | Sendable(config, frame)
      ensures FaithfulOn(config, Reassembling(config), clock, map[], counter, frame, ticks)
    {
      ReassemblerRebuilds(config, clock, counter, frame, ticks);
    }
  }

  lemma AllGotStep(frames: seq<ControlFrame>)
    requires frames != []
    ensures [Got(frames[0])] + AllGot(frames[1..]) == AllGot(frames)
  {
  }

  lemma ReadManyStep<S>(max: nat, step: Step<S>, clock: nat -> int, reader: Reader<S>, n: nat)
    requires n > 0
    ensures var (next, result) := ReadSpec(max, step, clock, reader);
            && ReadMany(max, step, clock, reader, n).0 == ReadMany(max, step, clock, next, n - 1).0
            && ReadMany(max, step, clock, reader, n).1 == [result] + ReadMany(max, step, clock, next, n - 1).1
  {
  }

  lemma {:induction false} ReadAllBack<S(!new)>(config: QuicConfig, step: Step<S>, clock: nat -> int,
                                                counters: seq<uint64>, frames: seq<ControlFrame>, reader: Reader<S>)
    requires |counters| == |frames| && forall j :: 0 <= j < |frames| ==> Sendable(config, frames[j])
    requires Faithful(config, step, clock, reader.state)
    requires reader.wire == WrittenBytes(config, counters, frames)
    ensures ReadMany(config.maxPayloadSize, step, clock, reader, |frames|).0.state == reader.state
    ensures ReadMany(config.maxPayloadSize, step, clock, reader, |frames|).0.wire == []
    ensures ReadMany(config.maxPayloadSize, step, clock, reader, |frames|).1 == AllGot(frames)
    decreases |frames|
  {
    if frames != [] {
      ReadFirstBack(config, step, clock, counters, frames, reader);
      var next := ReadSpec(config.maxPayloadSize, step, clock, reader).0;
      ReadAllBack(config, step, clock, counters[1..], frames[1..], next);
      ReadManyStep(config.maxPayloadSize, step, clock, reader, |frames|);
      AllGotStep(frames);
    }
  }

  lemma ReadFirstBack<S(!new)>(config: QuicConfig, step: Step<S>, clock: nat -> int, counters: seq<uint64>,
                               frames: seq<ControlFrame>, reader: Reader<S>)
    requires |counters| == |frames| > 0 && forall j :: 0 <= j < |frames| ==> Sendable(config, frames[j])
    requires Faithful(config, step, clock, reader.state)
    requires reader.wire == WrittenBytes(config, counters, frames)
    ensures var (next, result) := ReadSpec(config.maxPayloadSize, step, clock, reader);
            && next.state == reader.state && result == Got(frames[0])
            && next.wire == WrittenBytes(config, counters[1..], frames[1..])
  {
    assert Sendable(config, frames[0]);
    assert FaithfulOn(config, step, clock, reader.state, counters[0], frames[0], reader.ticks);
    ReadOne(config.maxPayloadSize, step, clock, SplitFrame(config, counters[0], frames[0]).value, frames[0],
            WrittenBytes(config, counters[1..], frames[1..]), reader);
  }

  /**
   Round trip over the wire: what any number of accepted frames put on the stream, by one writer or several, is read
   back as exactly those frames in order, consuming every byte and leaving no assembly open.
   */
  lemma WireRoundTrip(config: QuicConfig, clock: nat -> int, counters: seq<uint64>, frames: seq<ControlFrame>,
                      reader: Reader<Assemblies>)
    requires |counters| == |frames| && forall j :: 0 <= j < |frames| ==> Sendable(config, frames[j])
    requires SteadyClock(config, clock)
    requires reader.state == map[] && reader.wire == WrittenBytes(config, counters, frames)
    ensures ReadMany(config.maxPayloadSize, Reassembling(config), clock, reader, |frames|).0.state == map[]
    ensures ReadMany(config.maxPayloadSize, Reassembling(config), clock, reader, |frames|).0.wire == []
    ensures ReadMany(config.maxPayloadSize, Reassembling(config), clock, reader, |frames|).1 == AllGot(frames)
  {
    ReassemblerIsFaithful(config, clock);
    ReadAllBack(config, Reassembling(config), clock, counters, frames, reader);
  }

  // ---------------------------------------------------------------------------------------------
  // Deadlines: reads and writes that stop in the middle of a frame
  // ---------------------------------------------------------------------------------------------

  /** The bytes the parser has to see before it can decide about the frame at the start of `wire`. */
  function Needed(wire: bytes): nat {
    if |wire| < CONTROL_HEADER_SIZE then CONTROL_HEADER_SIZE else CONTROL_HEADER_SIZE + FromBE32(wire[2..6])
  }

  /** `trace` are the readers between the rounds, none of which ended the read, that lead from `start` to `reader`. */
  ghost predicate Reached<S>(max: nat, step: Step<S>, clock: nat -> int, start: Reader<S>, trace: seq<Reader<S>>,
                             reader: Reader<S>)
  {
    && trace != [] && trace[0] == start && trace[|trace| - 1] == reader
    && forall i :: 0 < i < |trace| ==> GoesOn(max, step, clock, trace[i - 1], trace[i])
  }

  /**
   What a read that ran out of time did: some whole rounds, and then it took `n` bytes of a frame off the stream, but
   not all of it. Those bytes are gone.
   */
  ghost predicate Interrupted<S>(max: nat, step: Step<S>, clock: nat -> int, before: Reader<S>,
                                 trace: seq<Reader<S>>, n: nat, after: Reader<S>)
  {
    trace != [] && Reached(max, step, clock, before, trace, trace[|trace| - 1]) && Dropped(trace[|trace| - 1], n, after)
  }

  ghost predicate Dropped<S>(before: Reader<S>, n: nat, after: Reader<S>) {
    n < Needed(before.wire) && n <= |before.wire| && after == before.(wire := before.wire[n..])
  }

  /** The answer of one round: what `RoundSpec` says, or that time ran out with `n` bytes of a frame taken. */
  ghost predicate RoundAnswers<S>(max: nat, step: Step<S>, clock: nat -> int, before: Reader<S>,
                                  result: Option<ReadResult>, n: nat, after: Reader<S>)
  {
    if result == Some(TimedOut) then Dropped(before, n, after)
    else after == RoundSpec(max, step, clock, before).0 && result == RoundSpec(max, step, clock, before).1
  }

  /** The answer of a read: what `ReadSpec` says, or that time ran out. */
  ghost predicate Answers<S>(max: nat, step: Step<S>, clock: nat -> int, before: Reader<S>, result: ReadResult,
                             trace: seq<Reader<S>>, n: nat, after: Reader<S>)
  {
    if result == TimedOut then Interrupted(max, step, clock, before, trace, n, after)
    else && after == ReadSpec(max, step, clock, before).0
         && result == ReadSpec(max, step, clock, before).1
  }

  lemma {:induction false} RoundsKeepRead<S>(max: nat, step: Step<S>, clock: nat -> int, trace: seq<Reader<S>>, i: nat)
    requires forall i :: 0 < i < |trace| ==> GoesOn(max, step, clock, trace[i - 1], trace[i])
    requires i < |trace|
    ensures ReadSpec(max, step, clock, trace[i]) == ReadSpec(max, step, clock, trace[0])
  {
    if i > 0 {
      RoundsKeepRead(max, step, clock, trace, i - 1);
      RoundKeepsRead(max, step, clock, trace[i - 1], trace[i]);
    }
  }

  /** A further round ends the read, with what `ReadSpec` says, or is one more round. */
  lemma OneMoreRound<S>(max: nat, step: Step<S>, clock: nat -> int, start: Reader<S>, trace: seq<Reader<S>>,
                        before: Reader<S>, after: Reader<S>, result: Option<ReadResult>, n: nat)
    requires Reached(max, step, clock, start, trace, before)
    requires RoundAnswers(max, step, clock, before, result, n, after)
    ensures result == None ==> Reached(max, step, clock, start, trace + [after], after)
    ensures result.Some? ==> Answers(max, step, clock, start, result.value, trace, n, after)
  {
    if result != Some(TimedOut) {
      RoundsKeepRead(max, step, clock, trace, |trace| - 1);
    }
    if result == None {
      assert GoesOn(max, step, clock, before, after);
    }
  }

  /** A read that ran out of time between two frames can be repeated: the next one gives what it would have given. */
  lemma RetryAfterTimeout<S>(max: nat, step: Step<S>, clock: nat -> int, before: Reader<S>, trace: seq<Reader<S>>,
                             after: Reader<S>)
    requires Interrupted(max, step, clock, before, trace, 0, after)
    ensures ReadSpec(max, step, clock, after) == ReadSpec(max, step, clock, before)
  {
    var reader := trace[|trace| - 1];
    RoundsKeepRead(max, step, clock, trace, |trace| - 1);
    assert reader.wire[0..] == reader.wire;
  }

  /** The parser takes exactly these frames off the wire, one after the other, and nothing is left. */
  predicate ParsesAs(max: nat, wire: bytes, frames: seq<ControlFrame>) {
    if frames == [] then wire == []
    else
      match ParseFrame(max, wire)
      case Parsed(frame, rest) => frame == frames[0] && ParsesAs(max, rest, frames[1..])
      case _ => false
  }

  ghost predicate WithinLimit(max: nat, frames: seq<ControlFrame>) {
    forall k :: 0 <= k < |frames| ==> |frames[k].payload| <= max
  }

  lemma EncodeInvertsParse(max: nat, wire: bytes)
    requires max <= 0xFFFF_FFFF && ParseFrame(max, wire).Parsed?
    ensures wire == EncodeFrame(ParseFrame(max, wire).frame) + ParseFrame(max, wire).rest
  {
    var size := FromBE32(wire[2..6]);
    BE16Bijective(FromBE16(wire[0..2]), wire[0..2]);
    BE32Bijective(size, wire[2..6]);
    assert wire == wire[0..2] + wire[2..6] + wire[6..6 + size] + wire[6 + size..];
  }

  /** The parser takes exactly `frames` off a wire if and only if the wire is their encoding. */
  lemma {:induction false} ParsesExactly(max: nat, wire: bytes, frames: seq<ControlFrame>)
    requires max <= 0xFFFF_FFFF && WithinLimit(max, frames)
    ensures ParsesAs(max, wire, frames) <==> wire == EncodeFrames(frames)
  {
    if frames != [] {
      if ParsesAs(max, wire, frames) {
        EncodeInvertsParse(max, wire);
        ParsesExactly(max, ParseFrame(max, wire).rest, frames[1..]);
      } else if wire == EncodeFrames(frames) {
        ParseInvertsEncode(max, frames[0], EncodeFrames(frames[1..]));
        ParsesExactly(max, EncodeFrames(frames[1..]), frames[1..]);
      }
    }
  }

  /** `n` bytes of the encoding of `frames` are a whole number of frames. */
  ghost predicate OnBoundary(frames: seq<ControlFrame>, n: nat) {
    exists k :: 0 <= k <= |frames| && n == |EncodeFrames(frames[..k])|
  }

  lemma EncodeFramesAppend(xs: seq<ControlFrame>, ys: seq<ControlFrame>)
    ensures EncodeFrames(xs + ys) == EncodeFrames(xs) + EncodeFrames(ys)
  {
    if xs == [] {
      assert xs + ys == ys;
    } else {
      assert (xs + ys)[1..] == xs[1..] + ys;
      EncodeFramesAppend(xs[1..], ys);
    }
  }

  lemma EncodeFramesSplit(frames: seq<ControlFrame>, k: nat)
    requires k <= |frames|
    ensures EncodeFrames(frames) == EncodeFrames(frames[..k]) + EncodeFrames(frames[k..])
  {
    assert frames == frames[..k] + frames[k..];
    EncodeFramesAppend(frames[..k], frames[k..]);
  }

  /** What the other end sees after a write stopped short: some of its parts, whole, and then all later frames. */
  ghost predicate InStepAfterWrite(max: nat, parts: seq<ControlFrame>, n: nat, later: seq<ControlFrame>)
    requires n <= |EncodeFrames(parts)|
  {
    exists k :: 0 <= k <= |parts| && ParsesAs(max, EncodeFrames(parts)[..n] + EncodeFrames(later), parts[..k] + later)
  }

  /**
   A write that stopped after `n` bytes leaves the channel open. Whatever is written next, the other end stays in step
   exactly if those bytes are a whole number of frames.
   */
  lemma WriteStaysInStep(max: nat, parts: seq<ControlFrame>, n: nat, later: seq<ControlFrame>)
    requires max <= 0xFFFF_FFFF && WithinLimit(max, parts) && WithinLimit(max, later) && n <= |EncodeFrames(parts)|
    ensures InStepAfterWrite(max, parts, n, later) <==> OnBoundary(parts, n)
  {
    forall k | 0 <= k <= |parts|
      ensures ParsesAs(max, EncodeFrames(parts)[..n] + EncodeFrames(later), parts[..k] + later)
              <==> n == |EncodeFrames(parts[..k])|
    {
      ParsesFirstParts(max, parts, n, k, later);
    }
  }

  lemma ParsesFirstParts(max: nat, parts: seq<ControlFrame>, n: nat, k: nat, later: seq<ControlFrame>)
    requires max <= 0xFFFF_FFFF && WithinLimit(max, parts) && WithinLimit(max, later)
    requires n <= |EncodeFrames(parts)| && k <= |parts|
    ensures ParsesAs(max, EncodeFrames(parts)[..n] + EncodeFrames(later), parts[..k] + later)
            <==> n == |EncodeFrames(parts[..k])|
  {
    ParsesExactly(max, EncodeFrames(parts)[..n] + EncodeFrames(later), parts[..k] + later);
    EncodeFramesAppend(parts[..k], later);
    EncodeFramesSplit(parts, k);
    SamePrefix(EncodeFrames(parts[..k]), EncodeFrames(parts[k..]), n, EncodeFrames(later));
  }

  lemma SamePrefix(a: bytes, b: bytes, n: nat, rest: bytes)
    requires n <= |a + b|
    ensures (a + b)[..n] + rest == a + rest <==> n == |a|
  {
  }

  /** What a reader still sees after it dropped `n` bytes: a rest of the frames. */
  ghost predicate InStepAfterRead(max: nat, frames: seq<ControlFrame>, n: nat)
    requires n <= |EncodeFrames(frames)|
  {
    exists k :: 0 <= k <= |frames| && ParsesAs(max, EncodeFrames(frames)[n..], frames[k..])
  }

  /** A read that ran out of time within a frame stays in step exactly if it had not taken a byte of that frame. */
  lemma ReadStaysInStep(max: nat, frames: seq<ControlFrame>, n: nat)
    requires max <= 0xFFFF_FFFF && WithinLimit(max, frames) && frames != []
    requires n <= |EncodeFrames(frames)| && n < Needed(EncodeFrames(frames))
    ensures InStepAfterRead(max, frames, n) <==> n == 0
  {
    FirstNeeded(max, frames);
    if InStepAfterRead(max, frames, n) {
      var k :| 0 <= k <= |frames| && ParsesAs(max, EncodeFrames(frames)[n..], frames[k..]);
      ParsesExactly(max, EncodeFrames(frames)[n..], frames[k..]);
      EncodeFramesSplit(frames, k);
      FirstFits(frames, k);
    }
    if n == 0 {
      assert frames[0..] == frames && EncodeFrames(frames)[0..] == EncodeFrames(frames);
      ParsesExactly(max, EncodeFrames(frames), frames);
    }
  }

  lemma FirstFits(frames: seq<ControlFrame>, k: nat)
    requires frames != [] && k <= |frames|
    ensures k == 0 || |EncodeFrame(frames[0])| <= |EncodeFrames(frames[..k])|
  {
  }

  lemma FirstNeeded(max: nat, frames: seq<ControlFrame>)
    requires max <= 0xFFFF_FFFF && WithinLimit(max, frames) && frames != []
    ensures Needed(EncodeFrames(frames)) == |EncodeFrame(frames[0])|
  {
    var wire := EncodeFrames(frames);
    assert wire[2..6] == BE32(|frames[0].payload|);
    BE32Bijective(|frames[0].payload|, wire[2..6]);
  }

  // ---------------------------------------------------------------------------------------------
  // The channel
  // ---------------------------------------------------------------------------------------------

  /** How a stream operation ends; only one that was given a deadline can run out of time. */
  datatype Status = Done | OutOfTime | StreamFailed

  /**
   One end of a bidirectional stream; reads and writes may move any positive number of bytes. `timed` tells whether the
   caller's context can end while the operation waits.
   */
  class QuicStream {
    var incoming: bytes
    var outgoing: bytes

    constructor (incoming: bytes)
      ensures this.incoming == incoming && outgoing == []
    {
      this.incoming, outgoing := incoming, [];
    }

    /** An empty result in time is the end of the stream. */
    method Read(size: nat, timed: bool) returns (data: bytes, expired: bool)
      requires size > 0
      modifies this`incoming
      ensures old(incoming) == data + incoming && |data| <= size
      ensures data == [] && !expired ==> old(incoming) == []
      ensures expired ==> timed && data == []
    {
      expired := *;
      expired := expired && timed;
      if expired || incoming == [] {
        return [], expired;
      }
      var n: nat :| 0 < n <= size && n <= |incoming|;
      data, incoming := incoming[..n], incoming[n..];
    }

    /** The stream may fail or run out of time after any number of bytes. */
    method Write(data: bytes, timed: bool) returns (written: nat, status: Status)
      requires data != []
      modifies this`outgoing
      ensures written <= |data| && outgoing == old(outgoing) + data[..written]
      ensures status == Done ==> written > 0
      ensures status == OutOfTime ==> timed
    {
      status :| status == OutOfTime ==> timed;
      written :| 0 <= written <= |data| && (status != Done || written > 0);
      outgoing := outgoing + data[..written];
    }
  }

  datatype Fetched = Full(data: bytes) | Drained | Expired

  /** Reads exactly `size` bytes, or drains a stream that is too short, or runs out of time having dropped fewer. */
  method ReadFull(stream: QuicStream, size: nat, timed: bool) returns (result: Fetched, ghost dropped: nat)
    modifies stream`incoming
    ensures dropped <= |old(stream.incoming)| && stream.incoming == old(stream.incoming)[dropped..]
    ensures match result
            case Full(data) => dropped == size && data == old(stream.incoming)[..size]
            case Drained => |old(stream.incoming)| < size && stream.incoming == []
            case Expired => dropped < size && timed
  {
    var read: bytes := [];
    while |read| < size
      invariant |read| <= size && read + stream.incoming == old(stream.incoming)
      decreases size - |read|
    {
      var chunk, expired := stream.Read(size - |read|, timed);
      if chunk == [] {
        result, dropped := if expired then Expired else Drained, |read|;
        return;
      }
      read := read + chunk;
    }
    result, dropped := Full(read), size;
  }

  /** Writes everything, or stops after `sent` bytes. */
  method WriteAll(stream: QuicStream, data: bytes, timed: bool) returns (status: Status, ghost sent: nat)
    modifies stream`outgoing
    ensures sent <= |data| && stream.outgoing == old(stream.outgoing) + data[..sent]
    ensures status == Done ==> sent == |data|
    ensures status == OutOfTime ==> timed
  {
    var writtenSize := 0;
    while writtenSize < |data|
      invariant writtenSize <= |data|
      invariant stream.outgoing == old(stream.outgoing) + data[..writtenSize]
    {
      var n;
      n, status := stream.Write(data[writtenSize..], timed);
      assert data[..writtenSize] + data[writtenSize..][..n] == data[..writtenSize + n];
      writtenSize := writtenSize + n;
      if status != Done {
        return status, writtenSize;
      }
    }
    status, sent := Done, writtenSize;
  }

  /** Why nothing, or not everything, was written. */
  datatype WriteResult = Written | Refused(error: FragmentError) | ChannelClosed | WriteFailed | WriteTimedOut

  class QuicControlChannel {
    const config: QuicConfig
    const stream: QuicStream
    const clock: nat -> int
    const fragmenter: Fragmenter
    const reassembler: Reassembler
    var ticks: nat
    var closed: bool

    ghost predicate Valid()
      reads this, reassembler
    {
      fragmenter.config == config && reassembler.config == config && reassembler.Valid()
    }

    ghost function View(): Reader<Assemblies>
      reads this, reassembler, reassembler.assemblies.Values, stream
    {
      Reader(reassembler.View(), stream.incoming, ticks)
    }

    constructor (config: QuicConfig, stream: QuicStream, clock: nat -> int)
      ensures Valid() && !closed && this.config == config && this.stream == stream && this.clock == clock
      ensures View() == Reader(map[], stream.incoming, 0) && fragmenter.nextMessageID == 0
      ensures fresh(fragmenter) && fresh(reassembler)
    {
      this.config, this.stream, this.clock := config, stream, clock;
      fragmenter := new Fragmenter(config);
      reassembler := new Reassembler(config);
      ticks, closed := 0, false;
    }

    /** Writes the header, then the payload, of one frame; it stops after `sent` bytes if the stream does. */
    method WriteFrame(frame: ControlFrame, timed: bool) returns (status: Status, ghost sent: nat)
      modifies stream`outgoing
      ensures sent <= |EncodeFrame(frame)| && stream.outgoing == old(stream.outgoing) + EncodeFrame(frame)[..sent]
      ensures status == Done ==> sent == |EncodeFrame(frame)| && |frame.payload| <= config.maxPayloadSize
      ensures |frame.payload| > config.maxPayloadSize || (frame.frameType == FRAGMENT_TYPE && frame.payload == []) ==>
                status == StreamFailed && sent == 0
      ensures status == OutOfTime ==> timed
    {
      if frame.frameType == FRAGMENT_TYPE && frame.payload == [] {
        return StreamFailed, 0;
      }
      if |frame.payload| > config.maxPayloadSize {
        return StreamFailed, 0;
      }
      ghost var start := stream.outgoing;
      status, sent := WriteAll(stream, EncodeFrameHeader(frame), timed);
      assert EncodeFrameHeader(frame)[..sent] == EncodeFrame(frame)[..sent];
      if status != Done || frame.payload == [] {
        return;
      }
      ghost var more;
      status, more := WriteAll(stream, frame.payload, timed);
      WriteInTwo(start, EncodeFrameHeader(frame), frame.payload, more);
      sent := sent + more;
    }

    /**
     A successful write appends exactly the frame's wire frames. One that runs out of time leaves the channel open with
     the first `sent` of their bytes on the stream; any other failure closes it.
     */
    method WriteControlFrame(frame: ControlFrame, timed: bool) returns (result: WriteResult, ghost sent: nat)
      requires Valid()
      modifies this`closed, stream`outgoing, fragmenter
      ensures Valid()
      ensures old(closed) <==> result == ChannelClosed
      ensures closed <==> result in {ChannelClosed, WriteFailed}
      ensures fragmenter.nextMessageID == if old(closed) then old(fragmenter.nextMessageID)
                                          else CounterAfter(config, old(fragmenter.nextMessageID), frame)
      ensures if old(closed) then stream.outgoing == old(stream.outgoing)
              else match SplitFrame(config, old(fragmenter.nextMessageID), frame)
                   case Err(e) => result == Refused(e) && stream.outgoing == old(stream.outgoing)
                   case Ok(parts) =>
                     && result in {Written, WriteFailed, WriteTimedOut} && sent <= |EncodeFrames(parts)|
                     && stream.outgoing == old(stream.outgoing) + EncodeFrames(parts)[..sent]
                     && (result == Written ==> sent == |EncodeFrames(parts)|)
      ensures result == WriteTimedOut ==> timed
    {
      sent := 0;
      if closed {
        return ChannelClosed, 0;
      }
      var split := fragmenter.Fragment(frame);
      if split.Err? {
        return Refused(split.error), 0;
      }
      var status;
      status, sent := WriteFrames(split.value, timed);
      closed := status == StreamFailed;
      result := match status case Done => Written case OutOfTime => WriteTimedOut case StreamFailed => WriteFailed;
    }

    method WriteFrames(frames: seq<ControlFrame>, timed: bool) returns (status: Status, ghost sent: nat)
      modifies stream`outgoing
      ensures sent <= |EncodeFrames(frames)|
      ensures stream.outgoing == old(stream.outgoing) + EncodeFrames(frames)[..sent]
      ensures status == Done ==> sent == |EncodeFrames(frames)|
      ensures status == OutOfTime ==> timed
    {
      ghost var start := stream.outgoing;
      for i := 0 to |frames|
        invariant stream.outgoing == start + EncodeFrames(frames[..i])
      {
        ghost var more;
        status, more := WriteFrame(frames[i], timed);
        OneMoreFrame(start, frames, i, more);
        if status != Done {
          sent := |EncodeFrames(frames[..i])| + more;
          return;
        }
      }
      assert frames[..|frames|] == frames;
      status, sent := Done, |EncodeFrames(frames)|;
    }

    /**
     A call on an open channel does what `ReadSpec` says and closes the channel on an error; or it runs out of time,
     which leaves the channel open and part of a frame dropped.
     */
    method ReadControlFrame(timed: bool)
      returns (result: ReadResult, ghost trace: seq<Reader<Assemblies>>, ghost dropped: nat)
      requires Valid()
      modifies this`ticks, this`closed, stream`incoming, reassembler, reassembler.assemblies.Values
      ensures Valid()
      ensures old(closed) ==> result == Broken(None) && View() == old(View())
      ensures !old(closed) ==> Answers(config.maxPayloadSize, Reassembling(config), clock, old(View()), result,
                                       trace, dropped, View())
      ensures result == TimedOut ==> timed
      ensures closed <==> result.Broken?
      ensures fresh(reassembler.assemblies.Values - old(reassembler.assemblies.Values))
    {
      if closed {
        return Broken(None), [], 0;
      }
      result, trace, dropped := ReadOpen(timed);
      closed := result.Broken?;
    }

    /** The read loop. */
    method ReadOpen(timed: bool) returns (result: ReadResult, ghost trace: seq<Reader<Assemblies>>, ghost dropped: nat)
      requires Valid()
      modifies this`ticks, stream`incoming, reassembler, reassembler.assemblies.Values
      ensures Valid()
      ensures Answers(config.maxPayloadSize, Reassembling(config), clock, old(View()), result, trace, dropped, View())
      ensures result == TimedOut ==> timed
      ensures fresh(reassembler.assemblies.Values - old(reassembler.assemblies.Values))
    {
      ghost var start := View();
      var round: Option<ReadResult> := None;
      trace, dropped := [start], 0;
      while round == None
        invariant Valid()
        invariant Progressed(start, round, trace, dropped)
        invariant round == Some(TimedOut) ==> timed
        invariant fresh(reassembler.assemblies.Values - old(reassembler.assemblies.Values))
        decreases round == None, |stream.incoming|
      {
        round, trace, dropped := NextRound(timed, start, trace);
      }
      result := round.value;
    }

    /** Where the read loop is: between two rounds, or at its answer. */
    ghost predicate Progressed(start: Reader<Assemblies>, round: Option<ReadResult>, trace: seq<Reader<Assemblies>>,
                               dropped: nat)
      reads this, reassembler, reassembler.assemblies.Values, stream
    {
      match round
      case None => Reached(config.maxPayloadSize, Reassembling(config), clock, start, trace, View())
      case Some(result) =>
        Answers(config.maxPayloadSize, Reassembling(config), clock, start, result, trace, dropped, View())
    }

    /** A round of the read loop that follows the rounds of `before`. */
    method NextRound(timed: bool, ghost start: Reader<Assemblies>, ghost before: seq<Reader<Assemblies>>)
      returns (round: Option<ReadResult>, ghost trace: seq<Reader<Assemblies>>, ghost dropped: nat)
      requires Valid() && Progressed(start, None, before, 0)
      modifies this`ticks, stream`incoming, reassembler, reassembler.assemblies.Values
      ensures Valid() && Progressed(start, round, trace, dropped)
      ensures round == None ==> |stream.incoming| < |old(stream.incoming)|
      ensures round == Some(TimedOut) ==> timed
      ensures fresh(reassembler.assemblies.Values - old(reassembler.assemblies.Values))
    {
      ghost var reader := View();
      round, dropped := ReadRound(timed);
      OneMoreRound(config.maxPayloadSize, Reassembling(config), clock, start, before, reader, View(), round, dropped);
      trace := if round == None then before + [View()] else before;
    }

    /** One round of the read loop. */
    method ReadRound(timed: bool) returns (result: Option<ReadResult>, ghost dropped: nat)
      requires Valid()
      modifies this`ticks, stream`incoming, reassembler, reassembler.assemblies.Values
      ensures Valid()
      ensures RoundAnswers(config.maxPayloadSize, Reassembling(config), clock, old(View()), result, dropped, View())
      ensures result == Some(TimedOut) ==> timed
      ensures result == None ==> |stream.incoming| < |old(stream.incoming)|
      ensures fresh(reassembler.assemblies.Values - old(reassembler.assemblies.Values))
    {
      var parsed;
      parsed, dropped := ReadFrame(timed);
      assert reassembler.View() == old(reassembler.View());
      match parsed {
        case Unreadable =>
          return Some(Broken(None)), dropped;
        case LateFrame =>
          return Some(TimedOut), dropped;
        case Complete(frame) =>
          assert ParseFrame(config.maxPayloadSize, old(stream.incoming)) == Parsed(frame, stream.incoming);
          result := Feed(frame);
      }
    }

    /** Hands a wire frame to the reassembler. */
    method Feed(frame: ControlFrame) returns (result: Option<ReadResult>)
      requires Valid()
      modifies this`ticks, reassembler, reassembler.assemblies.Values
      ensures Valid() && ticks == old(ticks) + 1
      ensures var (state, outcome) := Reassembling(config)(old(reassembler.View()), frame, clock(old(ticks)));
              reassembler.View() == state && result == ResultOf(outcome)
      ensures fresh(reassembler.assemblies.Values - old(reassembler.assemblies.Values))
    {
      var now := clock(ticks);
      ticks := ticks + 1;
      var outcome := reassembler.ReassembleAt(frame, now);
      assert Reassembling(config)(old(reassembler.View()), frame, now) == (reassembler.View(), outcome);
      result := ResultOf(outcome);
    }

    /** Reads one frame off the stream, unless the stream is short, the frame oversized, or the time over. */
    method ReadFrame(timed: bool) returns (frame: Incoming, ghost dropped: nat)
      modifies stream`incoming
      ensures frame == LateFrame ==>
                && timed && dropped < Needed(old(stream.incoming)) && dropped <= |old(stream.incoming)|
                && stream.incoming == old(stream.incoming)[dropped..]
      ensures frame != LateFrame ==>
                match ParseFrame(config.maxPayloadSize, old(stream.incoming))
                case Parsed(f, rest) => frame == Complete(f) && stream.incoming == rest
                case EndOfStream => frame == Unreadable && stream.incoming == []
                case TooLarge => frame == Unreadable && stream.incoming == old(stream.incoming)[6..]
    {
      ghost var wire := stream.incoming;
      var header;
      header, dropped := ReadFull(stream, CONTROL_HEADER_SIZE, timed);
      if !header.Full? {
        return if header.Expired? then LateFrame else Unreadable, dropped;
      }
      assert header.data[2..6] == wire[2..6] && header.data[0..2] == wire[0..2];
      var payloadSize := FromBE32(header.data[2..6]);
      if payloadSize > config.maxPayloadSize {
        return Unreadable, dropped;
      }
      var payload;
      ghost var more;
      payload, more := ReadFull(stream, payloadSize, timed);
      dropped := dropped + more;
      assert stream.incoming == wire[dropped..];
      if !payload.Full? {
        return if payload.Expired? then LateFrame else Unreadable, dropped;
      }
      assert payload.data == wire[6..6 + payloadSize];
      return Complete(ControlFrame(FromBE16(header.data[0..2]), payload.data)), dropped;
    }
  }

  datatype Incoming = Complete(frame: ControlFrame) | Unreadable | LateFrame

  lemma WriteInTwo(start: bytes, header: bytes, payload: bytes, n: nat)
    requires n <= |payload|
    ensures start + header + payload[..n] == start + (header + payload)[..|header| + n]
  {
  }

  lemma OneMoreFrame(start: bytes, frames: seq<ControlFrame>, i: nat, n: nat)
    requires i < |frames| && n <= |EncodeFrame(frames[i])|
    ensures var before := EncodeFrames(frames[..i]);
            && |before| + n <= |EncodeFrames(frames)|
            && start + before + EncodeFrame(frames[i])[..n] == start + EncodeFrames(frames)[..|before| + n]
            && (n == |EncodeFrame(frames[i])| ==>
                  start + before + EncodeFrame(frames[i])[..n] == start + EncodeFrames(frames[..i + 1]))
  {
    var before, frame := EncodeFrames(frames[..i]), EncodeFrame(frames[i]);
    EncodeFramesSplit(frames, i);
    EncodeFramesSplit(frames[..i + 1], i);
    assert frames[..i + 1][..i] == frames[..i] && frames[..i + 1][i..] == [frames[i]];
    OneFrame(frames[i], frames[i + 1..]);
    assert frames[i..] == [frames[i]] + frames[i + 1..];
    PartOfThree(start, before, frame, EncodeFrames(frames[i + 1..]), n);
  }

  lemma OneFrame(frame: ControlFrame, later: seq<ControlFrame>)
    ensures EncodeFrames([frame]) == EncodeFrame(frame)
    ensures EncodeFrames([frame] + later) == EncodeFrame(frame) + EncodeFrames(later)
  {
    assert ([frame] + later)[1..] == later;
  }

  lemma PartOfThree(start: bytes, before: bytes, frame: bytes, later: bytes, n: nat)
    requires n <= |frame|
    ensures start + before + frame[..n] == start + (before + (frame + later))[..|before| + n]
    ensures n == |frame| ==> start + before + frame[..n] == start + (before + frame)
  {
  }
}
