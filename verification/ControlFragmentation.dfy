/**
 Control-frame fragmentation and reassembly (ltfp/transport/control_fragmentation.go).

 The classes `Fragmenter`, `Assembly` and `Reassembler` carry the mutable state; every method is tied to a
 function on values (`SplitFrame`, `AddFragmentTo`, `ReassembleStep`), and the modules that import this one
 prove what whole runs of those functions do.
 */
module ControlFragmentation {
  import opened Basics
  import opened Bytes
  import opened Results

  const FRAGMENT_TYPE: uint16 := 0xFFFF
  const FRAGMENT_VERSION: byte := 1
  const FRAGMENT_HEADER_SIZE := 24
  const FRAGMENT_MAGIC: bytes := [0x4C, 0x54, 0x46, 0x50]  // "LTFP"
  const DEFAULT_MAX_PAYLOAD_SIZE := 64 * 1024
  const DEFAULT_REASSEMBLY_TTL := 30 * 1_000_000_000  // nanoseconds
  const DEFAULT_MAX_IN_FLIGHT := 256

  datatype ControlFrame = ControlFrame(frameType: uint16, payload: bytes)

  datatype FragmentError =
    | InvalidConfig
    | ReservedFrameType | TooManyFragments | PayloadTooLarge
    | ShortHeader | BadMagic | BadVersion | NestedFragment | ZeroCount | IndexOutOfRange | ZeroTotal
    | TooManyInFlight | ImpossibleTotal
    | TypeMismatch | CountMismatch | TotalMismatch | ConflictingDuplicate | PayloadOverflow
    | SizeMismatch | MissingFragment

  // ---------------------------------------------------------------------------------------------
  // Configuration
  // ---------------------------------------------------------------------------------------------

  datatype Config = Config(maxPayloadSize: int, reassemblyTTL: int, maxInFlight: int) {
    predicate Valid() {
      maxPayloadSize > FRAGMENT_HEADER_SIZE && reassemblyTTL > 0 && maxInFlight > 0
    }

    /** Replaces unset fields by defaults; fails exactly when an explicit frame limit cannot hold the header. */
    function Normalize(): (r: Result<Config, FragmentError>)
      ensures r.Err? <==> 0 < maxPayloadSize <= FRAGMENT_HEADER_SIZE
      ensures r.Ok? ==> r.value.Valid()
      ensures Valid() <==> r == Ok(this)
      ensures r.Ok? ==>
                && Settled(maxPayloadSize, DEFAULT_MAX_PAYLOAD_SIZE, r.value.maxPayloadSize)
                && Settled(reassemblyTTL, DEFAULT_REASSEMBLY_TTL, r.value.reassemblyTTL)
                && Settled(maxInFlight, DEFAULT_MAX_IN_FLIGHT, r.value.maxInFlight)
    {
      var size := if maxPayloadSize <= 0 then DEFAULT_MAX_PAYLOAD_SIZE else maxPayloadSize;
      if size <= FRAGMENT_HEADER_SIZE then
        Err(InvalidConfig)
      else
        Ok(Config(size,
                  if reassemblyTTL <= 0 then DEFAULT_REASSEMBLY_TTL else reassemblyTTL,
                  if maxInFlight <= 0 then DEFAULT_MAX_IN_FLIGHT else maxInFlight))
    }
  }

  type ValidConfig = c: Config | c.Valid()
    witness Config(DEFAULT_MAX_PAYLOAD_SIZE, DEFAULT_REASSEMBLY_TTL, DEFAULT_MAX_IN_FLIGHT)

  // ---------------------------------------------------------------------------------------------
  // Fragment header codec
  // ---------------------------------------------------------------------------------------------

  datatype Header = Header(
    originalType: uint16, messageID: uint64, fragmentIndex: uint16, fragmentCount: uint16, totalPayloadSize: uint32)
  {
    /** What the decoder demands of a header. */
    predicate Valid() {
      && originalType != FRAGMENT_TYPE
      && fragmentIndex < fragmentCount
      && totalPayloadSize != 0
    }
  }

  function EncodeHeader(header: Header): (r: bytes)
    ensures |r| == FRAGMENT_HEADER_SIZE
  {
    FRAGMENT_MAGIC + [FRAGMENT_VERSION, 0]
    + BE16(header.originalType) + BE16(header.fragmentCount) + BE16(header.fragmentIndex)
    + BE64(header.messageID) + BE32(header.totalPayloadSize)
  }

  function EncodeFragment(header: Header, payload: bytes): bytes {
    EncodeHeader(header) + payload
  }

  /** `copy(buffer[offset:], data)` for data that fits. */
  method PutBytes(buffer: array<byte>, offset: nat, data: bytes)
    requires offset + |data| <= buffer.Length
    modifies buffer
    ensures buffer[..] == old(buffer[..offset]) + data + old(buffer[offset + |data|..])
  {
    forall i | 0 <= i < |data| {
      buffer[offset + i] := data[i];
    }
  }

  method EncodeControlFragment(header: Header, payload: bytes) returns (encoded: array<byte>)
    ensures fresh(encoded)
    ensures encoded[..] == EncodeFragment(header, payload)
  {
    encoded := new byte[FRAGMENT_HEADER_SIZE + |payload|](_ => 0);
    PutBytes(encoded, 0, FRAGMENT_MAGIC);
    encoded[4] := FRAGMENT_VERSION;
    encoded[5] := 0;
    assert encoded[..6] == FRAGMENT_MAGIC + [FRAGMENT_VERSION, 0];
    PutBytes(encoded, 6, BE16(header.originalType));
    PutBytes(encoded, 8, BE16(header.fragmentCount));
    PutBytes(encoded, 10, BE16(header.fragmentIndex));
    assert encoded[..12] == FRAGMENT_MAGIC + [FRAGMENT_VERSION, 0]
      + BE16(header.originalType) + BE16(header.fragmentCount) + BE16(header.fragmentIndex);
    PutBytes(encoded, 12, BE64(header.messageID));
    PutBytes(encoded, 20, BE32(header.totalPayloadSize));
    assert encoded[..24] == EncodeHeader(header);
    PutBytes(encoded, 24, payload);
  }

  function ParseHeader(encoded: bytes): Header
    requires |encoded| >= FRAGMENT_HEADER_SIZE
  {
    Header(FromBE16(encoded[6..8]), FromBE64(encoded[12..20]), FromBE16(encoded[10..12]),
           FromBE16(encoded[8..10]), FromBE32(encoded[20..24]))
  }

  function DecodeFragment(encoded: bytes): (r: Result<(Header, bytes), FragmentError>)
    ensures r.Ok? ==> r.value.0.Valid()
  {
    if |encoded| < FRAGMENT_HEADER_SIZE then Err(ShortHeader)
    else if encoded[0..4] != FRAGMENT_MAGIC then Err(BadMagic)
    else if encoded[4] != FRAGMENT_VERSION then Err(BadVersion)
    else
      var header := ParseHeader(encoded);
      if header.originalType == FRAGMENT_TYPE then Err(NestedFragment)
      else if header.fragmentCount == 0 then Err(ZeroCount)
      else if header.fragmentIndex >= header.fragmentCount then Err(IndexOutOfRange)
      else if header.totalPayloadSize == 0 then Err(ZeroTotal)
      else Ok((header, encoded[FRAGMENT_HEADER_SIZE..]))
  }

  /** Decoding inverts encoding on exactly the headers the decoder considers valid. */
  lemma DecodeInvertsEncode(header: Header, payload: bytes)
    ensures DecodeFragment(EncodeFragment(header, payload)) == Ok((header, payload)) <==> header.Valid()
  {
    var e := EncodeFragment(header, payload);
    assert e[0..4] == FRAGMENT_MAGIC && e[4] == FRAGMENT_VERSION;
    assert e[6..8] == BE16(header.originalType) && e[8..10] == BE16(header.fragmentCount);
    assert e[10..12] == BE16(header.fragmentIndex) && e[12..20] == BE64(header.messageID);
    assert e[20..24] == BE32(header.totalPayloadSize) && e[24..] == payload;
    BE16Bijective(header.originalType, e[6..8]);
    BE16Bijective(header.fragmentCount, e[8..10]);
    BE16Bijective(header.fragmentIndex, e[10..12]);
    BE64Bijective(header.messageID, e[12..20]);
    BE32Bijective(header.totalPayloadSize, e[20..24]);
    assert ParseHeader(e) == header;
  }

  /** Any accepted buffer is its own re-encoding, except that byte 5 is ignored and rewritten as zero. */
  lemma EncodeInvertsDecode(encoded: bytes)
    requires DecodeFragment(encoded).Ok?
    ensures var (header, payload) := DecodeFragment(encoded).value;
            EncodeFragment(header, payload) == encoded[5 := 0]
  {
    var header := ParseHeader(encoded);
    BE16Bijective(header.originalType, encoded[6..8]);
    BE16Bijective(header.fragmentCount, encoded[8..10]);
    BE16Bijective(header.fragmentIndex, encoded[10..12]);
    BE64Bijective(header.messageID, encoded[12..20]);
    BE32Bijective(header.totalPayloadSize, encoded[20..24]);
    assert encoded == encoded[0..4] + [encoded[4], encoded[5]] + encoded[6..8] + encoded[8..10] + encoded[10..12]
                      + encoded[12..20] + encoded[20..24] + encoded[24..];
  }

  // ---------------------------------------------------------------------------------------------
  // Fragmenter
  // ---------------------------------------------------------------------------------------------

  /** Payload bytes one fragment can carry. */
  function PartSize(config: ValidConfig): (n: nat)
    ensures n > 0
  {
    config.maxPayloadSize - FRAGMENT_HEADER_SIZE
  }

  /** `a / b` by repeated subtraction: a definition the solver does not unfold into non-linear arithmetic. */
  function Quotient(a: nat, b: nat): nat
    requires b > 0
  {
    if a < b then 0 else 1 + Quotient(a - b, b)
  }

  lemma QuotientBounds(a: nat, b: nat)
    requires b > 0
    ensures Quotient(a, b) * b <= a < Quotient(a, b) * b + b
  {
    if a >= b {
      QuotientBounds(a - b, b);
      assert (1 + Quotient(a - b, b)) * b == Quotient(a - b, b) * b + b;
    }
  }

  lemma QuotientAtMost(a: nat, b: nat, q: nat, d: nat)
    requires q * b <= a < d * b + b
    ensures q <= d
  {
    if d < q {
      MultiplyMonotone(d + 1, q, b);
      assert false;
    }
  }

  lemma QuotientIsDivision(a: nat, b: nat)
    requires b > 0
    ensures Quotient(a, b) == a / b
  {
    QuotientBounds(a, b);
    QuotientAtMost(a, b, Quotient(a, b), a / b);
    QuotientAtMost(a, b, a / b, Quotient(a, b));
  }

  function PartCount(config: ValidConfig, payloadSize: nat): nat {
    Quotient(payloadSize + PartSize(config) - 1, PartSize(config))
  }

  /** Where chunk `index` starts: `index * width`, by repeated addition. */
  function Offset(index: nat, width: nat): nat {
    if index == 0 then 0 else Offset(index - 1, width) + width
  }

  lemma OffsetIsProduct(index: nat, width: nat)
    ensures Offset(index, width) == index * width
  {
    if index > 0 {
      OffsetIsProduct(index - 1, width);
      assert index * width == (index - 1) * width + width;
    }
  }

  function Chunk(payload: bytes, width: nat, index: nat): bytes {
    payload[Min(Offset(index, width), |payload|)..Min(Offset(index, width) + width, |payload|)]
  }

  /** Frames that go out whole. */
  predicate Small(config: ValidConfig, frame: ControlFrame) {
    |frame.payload| <= config.maxPayloadSize
  }

  /** Frames the fragmenter accepts and splits. */
  predicate Splittable(config: ValidConfig, frame: ControlFrame) {
    && frame.frameType != FRAGMENT_TYPE
    && !Small(config, frame)
    && PartCount(config, |frame.payload|) <= 0xFFFF
    && |frame.payload| <= 0xFFFF_FFFF
  }

  function PartHeader(config: ValidConfig, frame: ControlFrame, messageID: uint64, index: nat): Header
    requires Splittable(config, frame) && index < PartCount(config, |frame.payload|)
  {
    Header(frame.frameType, messageID, index, PartCount(config, |frame.payload|), |frame.payload|)
  }

  function PartFrame(config: ValidConfig, frame: ControlFrame, messageID: uint64, index: nat): ControlFrame
    requires Splittable(config, frame) && index < PartCount(config, |frame.payload|)
  {
    ControlFrame(FRAGMENT_TYPE, EncodeFragment(PartHeader(config, frame, messageID, index),
                                               Chunk(frame.payload, PartSize(config), index)))
  }

  function NextID(counter: uint64): uint64 {
    (counter + 1) % 0x1_0000_0000_0000_0000
  }

  /** The wire frames of `frame` when the message counter stands at `counter`. */
  function SplitFrame(config: ValidConfig, counter: uint64, frame: ControlFrame)
    : Result<seq<ControlFrame>, FragmentError>
  {
    if frame.frameType == FRAGMENT_TYPE then Err(ReservedFrameType)
    else if Small(config, frame) then Ok([frame])
    else if PartCount(config, |frame.payload|) > 0xFFFF then Err(TooManyFragments)
    else if |frame.payload| > 0xFFFF_FFFF then Err(PayloadTooLarge)
    else Ok(seq(PartCount(config, |frame.payload|),
                i requires 0 <= i < PartCount(config, |frame.payload|) =>
                  PartFrame(config, frame, NextID(counter), i)))
  }

  function CounterAfter(config: ValidConfig, counter: uint64, frame: ControlFrame): uint64 {
    if Splittable(config, frame) then NextID(counter) else counter
  }

  /** Every chunk of a payload is nonempty, fits a frame, and starts inside the payload. */
  lemma ChunkBounds(config: ValidConfig, payload: bytes, index: nat)
    requires index < PartCount(config, |payload|)
    ensures Offset(index, PartSize(config)) == index * PartSize(config) < |payload|
    ensures 0 < |Chunk(payload, PartSize(config), index)| <= PartSize(config)
  {
    var w, n := PartSize(config), PartCount(config, |payload|);
    QuotientBounds(|payload| + w - 1, w);
    MultiplyMonotone(index + 1, n, w);
    assert (index + 1) * w == index * w + w;
    OffsetIsProduct(index, w);
  }

  /** The chunks reach the end of the payload, the last one less than a chunk beyond it. */
  lemma ChunksCover(config: ValidConfig, payload: bytes)
    ensures |payload| <= Offset(PartCount(config, |payload|), PartSize(config)) < |payload| + PartSize(config)
  {
    QuotientBounds(|payload| + PartSize(config) - 1, PartSize(config));
    OffsetIsProduct(PartCount(config, |payload|), PartSize(config));
  }

  /**
   Which frames are accepted, in terms of their type and size: all but fragments, up to the frame limit or, in at most
   65535 parts, up to 2^32 - 1 bytes. Those within the limit go out whole; the others take the fewest parts that hold
   them, and a message id.
   */
  lemma AcceptedExactly(config: ValidConfig, counter: uint64, frame: ControlFrame)
    ensures var size, room, split := |frame.payload|, PartSize(config), SplitFrame(config, counter, frame);
            && (split.Ok? <==> && frame.frameType != FRAGMENT_TYPE
                               && (size <= config.maxPayloadSize || (size <= 0xFFFF_FFFF && size <= 0xFFFF * room)))
            && (split.Ok? && size <= config.maxPayloadSize ==>
                  split.value == [frame] && CounterAfter(config, counter, frame) == counter)
            && (split.Ok? && size > config.maxPayloadSize ==>
                  && size <= |split.value| * room < size + room
                  && CounterAfter(config, counter, frame) == NextID(counter))
  {
    var size, room, count := |frame.payload|, PartSize(config), PartCount(config, |frame.payload|);
    ChunksCover(config, frame.payload);
    OffsetIsProduct(count, room);
    if count > 0xFFFF {
      MultiplyMonotone(0x1_0000, count, room);
    } else {
      MultiplyMonotone(count, 0xFFFF, room);
    }
  }

  class Fragmenter {
    const config: ValidConfig
    var nextMessageID: uint64

    constructor (config: ValidConfig)
      ensures this.config == config && nextMessageID == 0
    {
      this.config, nextMessageID := config, 0;
    }

    method Fragment(frame: ControlFrame) returns (r: Result<seq<ControlFrame>, FragmentError>)
      modifies this
      ensures r == SplitFrame(config, old(nextMessageID), frame)
      ensures nextMessageID == CounterAfter(config, old(nextMessageID), frame)
    {
      if frame.frameType == FRAGMENT_TYPE {
        return Err(ReservedFrameType);
      }
      if |frame.payload| <= config.maxPayloadSize {
        return Ok([frame]);
      }
      var width := config.maxPayloadSize - FRAGMENT_HEADER_SIZE;
      var count := (|frame.payload| + width - 1) / width;
      QuotientIsDivision(|frame.payload| + width - 1, width);
      if count > 0xFFFF {
        return Err(TooManyFragments);
      }
      if |frame.payload| > 0xFFFF_FFFF {
        return Err(PayloadTooLarge);
      }
      nextMessageID := NextID(nextMessageID);
      var frames := Split(frame, count);
      assert frames == SplitFrame(config, old(nextMessageID), frame).value;
      r := Ok(frames);
    }

    method Split(frame: ControlFrame, count: uint16) returns (frames: seq<ControlFrame>)
      requires Splittable(config, frame) && count == PartCount(config, |frame.payload|)
      ensures |frames| == count
      ensures forall i :: 0 <= i < count ==> frames[i] == PartFrame(config, frame, nextMessageID, i)
    {
      var width := config.maxPayloadSize - FRAGMENT_HEADER_SIZE;
      frames := [];
      for index := 0 to count
        invariant |frames| == index
        invariant forall i :: 0 <= i < index ==> frames[i] == PartFrame(config, frame, nextMessageID, i)
      {
        ChunkBounds(config, frame.payload, index);
        var chunkOffset := index * width;
        var chunkEnd := chunkOffset + width;
        if chunkEnd > |frame.payload| {
          chunkEnd := |frame.payload|;
        }
        var header := Header(frame.frameType, nextMessageID, index, count, |frame.payload|);
        var encoded := EncodeControlFragment(header, frame.payload[chunkOffset..chunkEnd]);
        assert encoded[..] == PartFrame(config, frame, nextMessageID, index).payload;
        frames := frames + [ControlFrame(FRAGMENT_TYPE, encoded[..])];
      }
    }
  }

  // ---------------------------------------------------------------------------------------------
  // Assembly of one message
  // ---------------------------------------------------------------------------------------------

  /**
   One message being put together. A slot holds [] while its Go slice is nil: a stored slice is a copy made by
   appending to nil, so an empty fragment leaves its slot nil although it is counted as received.
   */
  datatype AssemblyState = AssemblyState(
    originalType: uint16, totalPayloadSize: uint32, slots: seq<bytes>,
    receivedCount: nat, receivedBytes: nat, lastUpdatedAt: int)
  {
    predicate Complete() {
      receivedCount == |slots|
    }

    function Payload(): Result<bytes, FragmentError>
      requires Complete()
    {
      if receivedBytes != totalPayloadSize then Err(SizeMismatch)
      else if [] in slots then Err(MissingFragment)
      else if |Join(slots)| != totalPayloadSize then Err(SizeMismatch)
      else Ok(Join(slots))
    }
  }

  function NewAssembly(header: Header, now: int): AssemblyState {
    AssemblyState(header.originalType, header.totalPayloadSize, seq(header.fragmentCount, _ => []), 0, 0, now)
  }

  function AddFragmentTo(a: AssemblyState, header: Header, payload: bytes, now: int)
    : Result<AssemblyState, FragmentError>
    requires header.fragmentIndex < header.fragmentCount
  {
    if a.originalType != header.originalType then Err(TypeMismatch)
    else if |a.slots| != header.fragmentCount then Err(CountMismatch)
    else if a.totalPayloadSize != header.totalPayloadSize then Err(TotalMismatch)
    else if a.slots[header.fragmentIndex] != [] then
      if a.slots[header.fragmentIndex] == payload then Ok(a.(lastUpdatedAt := now)) else Err(ConflictingDuplicate)
    else if (a.receivedBytes + |payload|) % 0x1_0000_0000 > a.totalPayloadSize then Err(PayloadOverflow)
    else Ok(a.(slots := a.slots[header.fragmentIndex := payload],
               receivedCount := a.receivedCount + 1,
               receivedBytes := a.receivedBytes + |payload|,
               lastUpdatedAt := now))
  }

  class Assembly {
    var originalType: uint16
    var totalPayloadSize: uint32
    var fragments: seq<bytes>
    var receivedCount: nat
    var receivedBytes: nat
    var lastUpdatedAt: int

    function State(): AssemblyState
      reads this
    {
      AssemblyState(originalType, totalPayloadSize, fragments, receivedCount, receivedBytes, lastUpdatedAt)
    }

    constructor (header: Header, now: int)
      ensures State() == NewAssembly(header, now)
    {
      originalType, totalPayloadSize := header.originalType, header.totalPayloadSize;
      fragments := seq(header.fragmentCount, _ => []);
      receivedCount, receivedBytes, lastUpdatedAt := 0, 0, now;
    }

    /** On an error the assembly is left as it was. */
    method AddFragment(header: Header, payload: bytes, now: int) returns (error: Option<FragmentError>)
      requires header.fragmentIndex < header.fragmentCount
      modifies this
      ensures match AddFragmentTo(old(State()), header, payload, now)
              case Ok(a) => error == None && State() == a
              case Err(e) => error == Some(e) && State() == old(State())
    {
      if originalType != header.originalType {
        return Some(TypeMismatch);
      }
      if |fragments| != header.fragmentCount {
        return Some(CountMismatch);
      }
      if totalPayloadSize != header.totalPayloadSize {
        return Some(TotalMismatch);
      }
      var existing := fragments[header.fragmentIndex];
      if existing != [] {
        if existing == payload {
          lastUpdatedAt := now;
          return None;
        }
        return Some(ConflictingDuplicate);
      }
      if (receivedBytes + |payload|) % 0x1_0000_0000 > totalPayloadSize {
        return Some(PayloadOverflow);
      }
      fragments := fragments[header.fragmentIndex := payload];
      receivedCount := receivedCount + 1;
      receivedBytes := receivedBytes + |payload|;
      lastUpdatedAt := now;
      return None;
    }

    method Payload() returns (r: Result<bytes, FragmentError>)
      requires State().Complete()
      ensures r == State().Payload()
    {
      if receivedBytes != totalPayloadSize {
        return Err(SizeMismatch);
      }
      var joined: bytes := [];
      for index := 0 to |fragments|
        invariant joined == Join(fragments[..index])
        invariant [] !in fragments[..index]
      {
        if fragments[index] == [] {
          return Err(MissingFragment);
        }
        assert fragments[..index + 1] == fragments[..index] + [fragments[index]];
        JoinSnoc(fragments[..index], fragments[index]);
        joined := joined + fragments[index];
      }
      assert fragments[..|fragments|] == fragments;
      if |joined| != totalPayloadSize {
        return Err(SizeMismatch);
      }
      return Ok(joined);
    }
  }

  // ---------------------------------------------------------------------------------------------
  // Reassembler
  // ---------------------------------------------------------------------------------------------

  type Assemblies = map<uint64, AssemblyState>

  datatype Outcome = Ready(frame: ControlFrame) | NotReady | Failed(error: FragmentError)

  function Unexpired(config: ValidConfig, assemblies: Assemblies, now: int): Assemblies {
    map id | id in assemblies && !(assemblies[id].lastUpdatedAt < now - config.reassemblyTTL) :: assemblies[id]
  }

  /** The most payload that many fragments can carry, in 64-bit unsigned arithmetic. */
  function MaxTotal(config: ValidConfig, fragmentCount: uint16): uint64 {
    Offset(fragmentCount, PartSize(config)) % 0x1_0000_0000_0000_0000
  }

  /** The assembly a fragment is added to: the stored one, or a fresh one if the limits allow it. */
  function FindOrCreate(config: ValidConfig, assemblies: Assemblies, header: Header, now: int)
    : Result<AssemblyState, FragmentError>
  {
    if header.messageID in assemblies then Ok(assemblies[header.messageID])
    else if |assemblies| >= config.maxInFlight then Err(TooManyInFlight)
    else if header.totalPayloadSize > MaxTotal(config, header.fragmentCount) then
      Err(ImpossibleTotal)
    else Ok(NewAssembly(header, now))
  }

  /** What a complete assembly gives its reader. */
  function Finish(a: AssemblyState): Outcome
    requires a.Complete()
  {
    match a.Payload()
    case Err(e) => Failed(e)
    case Ok(payload) => Ready(ControlFrame(a.originalType, payload))
  }

  /** Adds a fragment to the assembly stored for its message and hands out the message once complete. */
  function DeliverStep(stored: Assemblies, header: Header, payload: bytes, now: int): (Assemblies, Outcome)
    requires header.fragmentIndex < header.fragmentCount && header.messageID in stored
  {
    match AddFragmentTo(stored[header.messageID], header, payload, now)
    case Err(e) => (stored - {header.messageID}, Failed(e))
    case Ok(added) =>
      if !added.Complete() then (stored[header.messageID := added], NotReady)
      else
        (stored - {header.messageID}, Finish(added))
  }

  /** What one decoded fragment does to the open assemblies, expired ones already dropped. */
  function ReassembleFragment(config: ValidConfig, open: Assemblies, header: Header, payload: bytes, now: int)
    : (Assemblies, Outcome)
    requires header.fragmentIndex < header.fragmentCount
  {
    match FindOrCreate(config, open, header, now)
    case Err(e) => (open, Failed(e))
    case Ok(found) => DeliverStep(open[header.messageID := found], header, payload, now)
  }

  function ReassembleStep(config: ValidConfig, assemblies: Assemblies, frame: ControlFrame, now: int)
    : (Assemblies, Outcome)
  {
    if frame.frameType != FRAGMENT_TYPE then (assemblies, Ready(frame))
    else
      match DecodeFragment(frame.payload)
      case Err(e) => (assemblies, Failed(e))
      case Ok((header, payload)) =>
        ReassembleFragment(config, Unexpired(config, assemblies, now), header, payload, now)
  }

  lemma UpdateThenDrop(stored: Assemblies, messageID: uint64, assembly: AssemblyState)
    ensures stored[messageID := assembly] - {messageID} == stored - {messageID}
  {
  }

  class Reassembler {
    const config: ValidConfig
    var assemblies: map<uint64, Assembly>

    /** Distinct messages are kept in distinct objects. */
    ghost predicate Valid()
      reads this
    {
      forall i, j :: i in assemblies && j in assemblies && i != j ==> assemblies[i] != assemblies[j]
    }

    ghost function View(): Assemblies
      reads this, assemblies.Values
    {
      map id | id in assemblies :: assemblies[id].State()
    }

    constructor (config: ValidConfig)
      ensures this.config == config && Valid() && View() == map[]
    {
      this.config, assemblies := config, map[];
    }

    method ReassembleAt(frame: ControlFrame, now: int) returns (outcome: Outcome)
      requires Valid()
      modifies this, assemblies.Values
      ensures Valid()
      ensures fresh(assemblies.Values - old(assemblies.Values))
      ensures (View(), outcome) == ReassembleStep(config, old(View()), frame, now)
    {
      if frame.frameType != FRAGMENT_TYPE {
        return Ready(frame);
      }
      match DecodeFragment(frame.payload) {
        case Err(e) =>
          return Failed(e);
        case Ok((header, payload)) =>
          CleanupExpired(now);
          outcome := ReassembleDecoded(header, payload, now);
      }
    }

    method CleanupExpired(now: int)
      requires Valid()
      modifies this
      ensures Valid() && assemblies.Values <= old(assemblies.Values)
      ensures View() == Unexpired(config, old(View()), now)
    {
      var expiredBefore := now - config.reassemblyTTL;
      var pending := assemblies.Keys;
      while pending != {}
        invariant pending <= old(assemblies.Keys)
        invariant assemblies == map id | id in old(assemblies)
          && (id in pending || !(old(assemblies)[id].lastUpdatedAt < expiredBefore)) :: old(assemblies)[id]
        decreases pending
      {
        var messageID :| messageID in pending;
        pending := pending - {messageID};
        if assemblies[messageID].lastUpdatedAt < expiredBefore {
          assemblies := assemblies - {messageID};
        }
      }
    }

    method ReassembleDecoded(header: Header, payload: bytes, now: int) returns (outcome: Outcome)
      requires Valid() && header.fragmentIndex < header.fragmentCount
      modifies this, assemblies.Values
      ensures Valid()
      ensures fresh(assemblies.Values - old(assemblies.Values))
      ensures (View(), outcome) == ReassembleFragment(config, old(View()), header, payload, now)
    {
      var found := EnsureAssembly(header, now);
      if found.Err? {
        return Failed(found.error);
      }
      outcome := Deliver(found.value, header, payload, now);
    }

    method EnsureAssembly(header: Header, now: int) returns (r: Result<Assembly, FragmentError>)
      requires Valid()
      modifies this
      ensures Valid()
      ensures fresh(assemblies.Values - old(assemblies.Values))
      ensures match FindOrCreate(config, old(View()), header, now)
              case Err(e) => r == Err(e) && assemblies == old(assemblies) && View() == old(View())
              case Ok(a) => && r.Ok? && header.messageID in assemblies && assemblies[header.messageID] == r.value
                            && View() == old(View())[header.messageID := a]
    {
      assert View().Keys == assemblies.Keys && |View().Keys| == |View()|;
      if header.messageID in assemblies {
        return Ok(assemblies[header.messageID]);
      }
      if |assemblies| >= config.maxInFlight {
        return Err(TooManyInFlight);
      }
      if header.totalPayloadSize > MaxTotal(config, header.fragmentCount) {
        return Err(ImpossibleTotal);
      }
      var assembly := new Assembly(header, now);
      Store(header.messageID, assembly);
      r := Ok(assembly);
    }

    /** Opens an assembly for a message that has none. */
    method Store(messageID: uint64, assembly: Assembly)
      requires Valid() && messageID !in assemblies && assembly !in assemblies.Values
      modifies this
      ensures Valid() && assemblies == old(assemblies)[messageID := assembly]
      ensures View() == old(View())[messageID := assembly.State()]
    {
      assemblies := assemblies[messageID := assembly];
    }

    /** Closes the assembly of a message. */
    method Drop(messageID: uint64)
      requires Valid()
      modifies this
      ensures Valid() && assemblies == old(assemblies) - {messageID} && assemblies.Values <= old(assemblies.Values)
      ensures View() == old(View()) - {messageID}
    {
      assemblies := assemblies - {messageID};
    }

    method Deliver(assembly: Assembly, header: Header, payload: bytes, now: int) returns (outcome: Outcome)
      requires Valid() && header.fragmentIndex < header.fragmentCount
      requires header.messageID in assemblies && assemblies[header.messageID] == assembly
      modifies this, assembly
      ensures Valid() && assemblies.Values <= old(assemblies.Values)
      ensures (View(), outcome) == DeliverStep(old(View()), header, payload, now)
    {
      var error := assembly.AddFragment(header, payload, now);
      assert View() == old(View())[header.messageID := assembly.State()];
      UpdateThenDrop(old(View()), header.messageID, assembly.State());
      if error.Some? {
        Drop(header.messageID);
        return Failed(error.value);
      }
      if assembly.receivedCount != |assembly.fragments| {
        return NotReady;
      }
      Drop(header.messageID);
      var joined := assembly.Payload();
      match joined {
        case Err(e) => return Failed(e);
        case Ok(payload) => return Ready(ControlFrame(assembly.originalType, payload));
      }
    }
  }
}
