/**
 What the reassembler guarantees whatever frames arrive, well formed or not, at whatever times.
 */
module ReassemblySafety {
  import opened Bytes
  import opened Results
  import opened ControlFragmentation

  datatype Input = Input(frame: ControlFrame, now: int)

  /** The open assemblies after the first `k` inputs, starting from a fresh reassembler. */
  function StateAfter(config: ValidConfig, inputs: seq<Input>, k: nat): Assemblies
    requires k <= |inputs|
  {
    if k == 0 then map[]
    else ReassembleStep(config, StateAfter(config, inputs, k - 1), inputs[k - 1].frame, inputs[k - 1].now).0
  }

  function OutcomeAt(config: ValidConfig, inputs: seq<Input>, k: nat): Outcome
    requires k < |inputs|
  {
    ReassembleStep(config, StateAfter(config, inputs, k), inputs[k].frame, inputs[k].now).1
  }

  /** Started but incomplete, with an exact byte count. */
  predicate Pending(a: AssemblyState) {
    0 < a.receivedCount < |a.slots| && a.receivedBytes == |Join(a.slots)|
  }

  /** `input` is the fragment with that header and payload. */
  predicate IsFragment(input: Input, header: Header, payload: bytes) {
    input.frame.frameType == FRAGMENT_TYPE && DecodeFragment(input.frame.payload) == Ok((header, payload))
  }

  /** The header fragment `i` of an assembly must have carried. */
  function HeaderOf(id: uint64, a: AssemblyState, i: uint16): Header
    requires |a.slots| <= 0xFFFF
  {
    Header(a.originalType, id, i, |a.slots|, a.totalPayloadSize)
  }

  /** Input `e` is that fragment, and the reassembler did not refuse it. */
  predicate AcceptedAt(config: ValidConfig, inputs: seq<Input>, e: nat, header: Header, payload: bytes)
    requires e < |inputs|
  {
    IsFragment(inputs[e], header, payload) && !OutcomeAt(config, inputs, e).Failed?
  }

  /** Input `k` is a fragment of message `id` that was refused or completed the message. */
  predicate Ends(config: ValidConfig, inputs: seq<Input>, k: nat, id: uint64)
    requires k < |inputs|
  {
    && inputs[k].frame.frameType == FRAGMENT_TYPE && DecodeFragment(inputs[k].frame.payload).Ok?
    && DecodeFragment(inputs[k].frame.payload).value.0.messageID == id
    && !OutcomeAt(config, inputs, k).NotReady?
  }

  /**
   Before input `m` message `id` is open and the previous input did not end it, and if input `m` is a fragment, the
   message has not been idle for longer than the TTL.
   */
  predicate Survives(config: ValidConfig, inputs: seq<Input>, m: nat, id: uint64)
    requires m < |inputs|
  {
    var open := StateAfter(config, inputs, m);
    && id in open && (m > 0 ==> !Ends(config, inputs, m - 1, id))
    && (inputs[m].frame.frameType == FRAGMENT_TYPE && DecodeFragment(inputs[m].frame.payload).Ok? ==>
          inputs[m].now - open[id].lastUpdatedAt <= config.reassemblyTTL)
  }

  /** What happened in a run, as far as the slots of the open assemblies depend on it. */
  datatype Past = Past(accepted: (nat, Header, bytes) -> bool, survives: (nat, uint64) -> bool)

  function PastOf(config: ValidConfig, inputs: seq<Input>): Past {
    Past((e: nat, header: Header, payload: bytes) => e < |inputs| && AcceptedAt(config, inputs, e, header, payload),
         (m: nat, id: uint64) => m < |inputs| && Survives(config, inputs, m, id))
  }

  /** Input `e` is an accepted fragment, and its message has been open without interruption from then to before `k`. */
  ghost predicate HeldSince(past: Past, e: nat, k: nat, header: Header, payload: bytes) {
    e < k && past.accepted(e, header, payload) && forall m: nat :: e < m < k ==> past.survives(m, header.messageID)
  }

  ghost predicate Held(past: Past, k: nat, header: Header, payload: bytes) {
    exists e: nat :: HeldSince(past, e, k, header, payload)
  }

  /**
   Every filled slot holds a fragment that was accepted for this message, type, count, total and position, during the
   life of this assembly: since then the message neither failed nor completed nor expired.
   */
  ghost predicate Genuine(past: Past, k: nat, id: uint64, a: AssemblyState) {
    && |a.slots| <= 0xFFFF
    && forall i :: 0 <= i < |a.slots| && a.slots[i] != [] ==> Held(past, k, HeaderOf(id, a, i), a.slots[i])
  }

  ghost predicate Safe(config: ValidConfig, past: Past, k: nat, st: Assemblies) {
    && |st| <= config.maxInFlight
    && forall id :: id in st ==> Pending(st[id]) && Genuine(past, k, id, st[id])
  }

  /**
   A decoded fragment leaves its message open exactly if it is neither refused nor the last one. It is then in its slot
   of an assembly of its type, count and total, which was heard of just now.
   */
  lemma FragmentDecidesItsMessage(config: ValidConfig, inputs: seq<Input>, k: nat, header: Header, payload: bytes)
    requires k < |inputs| && IsFragment(inputs[k], header, payload)
    ensures var next, outcome := StateAfter(config, inputs, k + 1), OutcomeAt(config, inputs, k);
            && (header.messageID in next <==> outcome.NotReady?)
            && (outcome.NotReady? ==>
                  var a := next[header.messageID];
                  && |a.slots| == header.fragmentCount && HeaderOf(header.messageID, a, header.fragmentIndex) == header
                  && a.slots[header.fragmentIndex] == payload && a.lastUpdatedAt == inputs[k].now)
  {
  }

  /** No input changes another message, except that a decoded fragment drops those idle for longer than the TTL. */
  lemma OthersStay(config: ValidConfig, inputs: seq<Input>, k: nat, id: uint64)
    requires k < |inputs|
    requires forall header, payload :: IsFragment(inputs[k], header, payload) ==> header.messageID != id
    ensures var before, next := StateAfter(config, inputs, k), StateAfter(config, inputs, k + 1);
            && (id in next <==> && id in before
                                && (inputs[k].frame.frameType != FRAGMENT_TYPE
                                    || DecodeFragment(inputs[k].frame.payload).Err?
                                    || inputs[k].now - before[id].lastUpdatedAt <= config.reassemblyTTL))
            && (id in next ==> next[id] == before[id])
  {
    if inputs[k].frame.frameType == FRAGMENT_TYPE && DecodeFragment(inputs[k].frame.payload).Ok? {
      var (header, payload) := DecodeFragment(inputs[k].frame.payload).value;
      assert IsFragment(inputs[k], header, payload);
    }
  }

  lemma EndedMeansClosed(config: ValidConfig, inputs: seq<Input>, k: nat, id: uint64)
    requires k < |inputs| && Ends(config, inputs, k, id)
    ensures id !in StateAfter(config, inputs, k + 1)
  {
    var (header, payload) := DecodeFragment(inputs[k].frame.payload).value;
    FragmentDecidesItsMessage(config, inputs, k, header, payload);
  }

  lemma OpenHasNotEnded(config: ValidConfig, inputs: seq<Input>, k: nat)
    requires k <= |inputs|
    ensures forall id :: id in StateAfter(config, inputs, k) && k > 0 ==> !Ends(config, inputs, k - 1, id)
  {
    if k > 0 {
      forall id | Ends(config, inputs, k - 1, id)
        ensures id !in StateAfter(config, inputs, k)
      {
        EndedMeansClosed(config, inputs, k - 1, id);
      }
    }
  }

  lemma EmptyJoin(parts: seq<bytes>)
    requires forall i :: 0 <= i < |parts| ==> parts[i] == []
    ensures Join(parts) == []
  {
  }

  lemma SmallerMap<K, V>(m: map<K, V>, n: map<K, V>)
    requires m.Keys <= n.Keys
    ensures |m| <= |n|
  {
    if m.Keys != {} {
      var k :| k in m.Keys;
      var m', n' := m - {k}, n - {k};
      assert m'.Keys == m.Keys - {k} && n'.Keys == n.Keys - {k};
      SmallerMap(m', n');
      assert |m'.Keys| == |m.Keys| - 1 && |n'.Keys| == |n.Keys| - 1;
    }
  }

  lemma HeldGrows(past: Past, k: nat, header: Header, payload: bytes)
    requires past.survives(k, header.messageID) && Held(past, k, header, payload)
    ensures Held(past, k + 1, header, payload)
  {
    var e: nat :| HeldSince(past, e, k, header, payload);
    assert HeldSince(past, e, k + 1, header, payload);
  }

  lemma GenuineGrows(past: Past, k: nat, id: uint64, a: AssemblyState)
    requires past.survives(k, id) && Genuine(past, k, id, a)
    ensures Genuine(past, k + 1, id, a)
  {
    forall i | 0 <= i < |a.slots| && a.slots[i] != []
      ensures Held(past, k + 1, HeaderOf(id, a, i), a.slots[i])
    {
      HeldGrows(past, k, HeaderOf(id, a, i), a.slots[i]);
    }
  }

  /** Started, and with an exact byte count. */
  predicate Counts(a: AssemblyState) {
    0 < a.receivedCount <= |a.slots| && a.receivedBytes == |Join(a.slots)|
  }

  /** An accepted fragment keeps the byte count exact and every slot genuine, and counts up to the slot count. */
  lemma AddKeepsGenuine(past: Past, k: nat, header: Header, payload: bytes, a: AssemblyState, now: int)
    requires past.accepted(k, header, payload) && header.Valid()
    requires a.receivedCount < |a.slots| && a.receivedBytes == |Join(a.slots)|
    requires a.receivedCount > 0 || forall i :: 0 <= i < |a.slots| ==> a.slots[i] == []
    requires Genuine(past, k + 1, header.messageID, a)
    requires AddFragmentTo(a, header, payload, now).Ok?
    ensures var added := AddFragmentTo(a, header, payload, now).value;
            Counts(added) && Genuine(past, k + 1, header.messageID, added)
  {
    var added, at := AddFragmentTo(a, header, payload, now).value, header.fragmentIndex;
    if a.slots[at] == [] {
      JoinUpdateLength(a.slots, at, payload);
      assert HeldSince(past, k, k + 1, header, payload);
      forall i | 0 <= i < |added.slots| && added.slots[i] != []
        ensures Held(past, k + 1, HeaderOf(header.messageID, added, i), added.slots[i])
      {
        if i != at {
          assert Held(past, k + 1, HeaderOf(header.messageID, a, i), a.slots[i]);
        } else {
          assert HeaderOf(header.messageID, added, i) == header;
        }
      }
    }
  }

  /** What the open assemblies are once the cleanup before input `k` is done. */
  ghost predicate SafeToAdd(config: ValidConfig, past: Past, k: nat, open: Assemblies) {
    Safe(config, past, k, open) && forall id :: id in open ==> past.survives(k, id)
  }

  /** The assembly a fragment of an arbitrary run is added to, ready for `AddKeepsGenuine`. */
  lemma FoundIsGenuine(config: ValidConfig, past: Past, k: nat, open: Assemblies, header: Header, now: int)
    requires header.Valid() && SafeToAdd(config, past, k, open)
    requires FindOrCreate(config, open, header, now).Ok?
    ensures var found := FindOrCreate(config, open, header, now).value;
            && found.receivedCount < |found.slots| && found.receivedBytes == |Join(found.slots)|
            && (found.receivedCount > 0 || forall i :: 0 <= i < |found.slots| ==> found.slots[i] == [])
            && Genuine(past, k + 1, header.messageID, found)
            && |open[header.messageID := found]| <= config.maxInFlight
  {
    var found := FindOrCreate(config, open, header, now).value;
    if header.messageID in open {
      assert open[header.messageID := found] == open;
      GenuineGrows(past, k, header.messageID, found);
    } else {
      EmptyJoin(found.slots);
    }
  }

  lemma OpenStaysSafe(config: ValidConfig, past: Past, k: nat, open: Assemblies)
    requires SafeToAdd(config, past, k, open)
    ensures Safe(config, past, k + 1, open)
  {
    forall id | id in open
      ensures Genuine(past, k + 1, id, open[id])
    {
      GenuineGrows(past, k, id, open[id]);
    }
  }

  lemma DeliverKeepsSafe(config: ValidConfig, past: Past, k: nat, open: Assemblies, found: AssemblyState,
                         header: Header, payload: bytes, now: int)
    requires header.Valid() && Safe(config, past, k + 1, open) && Genuine(past, k + 1, header.messageID, found)
    requires found.receivedCount < |found.slots| && found.receivedBytes == |Join(found.slots)|
    requires found.receivedCount > 0 || forall i :: 0 <= i < |found.slots| ==> found.slots[i] == []
    requires |open[header.messageID := found]| <= config.maxInFlight
    requires var outcome := DeliverStep(open[header.messageID := found], header, payload, now).1;
             outcome.Failed? || past.accepted(k, header, payload)
    ensures Safe(config, past, k + 1, DeliverStep(open[header.messageID := found], header, payload, now).0)
  {
    var stored: Assemblies := open[header.messageID := found];
    var st := DeliverStep(stored, header, payload, now).0;
    SmallerMap(st, stored);
    var result := AddFragmentTo(found, header, payload, now);
    if result.Ok? && !result.value.Complete() {
      AddKeepsGenuine(past, k, header, payload, found, now);
    }
  }

  lemma FragmentKeepsSafe(config: ValidConfig, past: Past, k: nat, open: Assemblies, header: Header, payload: bytes,
                          now: int)
    requires header.Valid() && SafeToAdd(config, past, k, open)
    requires ReassembleFragment(config, open, header, payload, now).1.Failed? || past.accepted(k, header, payload)
    ensures Safe(config, past, k + 1, ReassembleFragment(config, open, header, payload, now).0)
  {
    OpenStaysSafe(config, past, k, open);
    match FindOrCreate(config, open, header, now) {
      case Err(_) =>
      case Ok(found) =>
        FoundIsGenuine(config, past, k, open, header, now);
        DeliverKeepsSafe(config, past, k, open, found, header, payload, now);
    }
  }

  ghost predicate SafeAfter(config: ValidConfig, inputs: seq<Input>, k: nat)
    requires k <= |inputs|
  {
    Safe(config, PastOf(config, inputs), k, StateAfter(config, inputs, k))
  }

  /** The cleanup before a fragment leaves what survives it. */
  lemma CleanupLeavesSafe(config: ValidConfig, inputs: seq<Input>, k: nat)
    requires k < |inputs| && SafeAfter(config, inputs, k)
    requires inputs[k].frame.frameType == FRAGMENT_TYPE && DecodeFragment(inputs[k].frame.payload).Ok?
    ensures SafeToAdd(config, PastOf(config, inputs), k,
                      Unexpired(config, StateAfter(config, inputs, k), inputs[k].now))
  {
    OpenHasNotEnded(config, inputs, k);
    SmallerMap(Unexpired(config, StateAfter(config, inputs, k), inputs[k].now), StateAfter(config, inputs, k));
  }

  /** A frame that is no decodable fragment finds every open message in place and leaves it so. */
  lemma PassingKeepsSafe(config: ValidConfig, inputs: seq<Input>, k: nat)
    requires k < |inputs| && SafeAfter(config, inputs, k)
    requires inputs[k].frame.frameType != FRAGMENT_TYPE || DecodeFragment(inputs[k].frame.payload).Err?
    ensures SafeAfter(config, inputs, k + 1)
  {
    OpenHasNotEnded(config, inputs, k);
    OpenStaysSafe(config, PastOf(config, inputs), k, StateAfter(config, inputs, k));
  }

  lemma StepKeepsSafe(config: ValidConfig, inputs: seq<Input>, k: nat)
    requires k < |inputs| && SafeAfter(config, inputs, k)
    ensures SafeAfter(config, inputs, k + 1)
  {
    var st, past, frame, now := StateAfter(config, inputs, k), PastOf(config, inputs), inputs[k].frame, inputs[k].now;
    if frame.frameType != FRAGMENT_TYPE || DecodeFragment(frame.payload).Err? {
      PassingKeepsSafe(config, inputs, k);
    } else {
      var (header, payload) := DecodeFragment(frame.payload).value;
      CleanupLeavesSafe(config, inputs, k);
      assert OutcomeAt(config, inputs, k).Failed? || past.accepted(k, header, payload);
      FragmentKeepsSafe(config, past, k, Unexpired(config, st, now), header, payload, now);
    }
  }

  /**
   Whatever arrives: at most `maxInFlight` messages are open, each is started but incomplete with an exact byte count,
   and each filled slot holds a fragment that was accepted for it since the message was last opened.
   */
  lemma AlwaysSafe(config: ValidConfig, inputs: seq<Input>, k: nat)
    requires k <= |inputs|
    ensures SafeAfter(config, inputs, k)
  {
    var i := 0;
    while i < k
      invariant i <= k && SafeAfter(config, inputs, i)
    {
      StepKeepsSafe(config, inputs, i);
      i := i + 1;
    }
  }

  lemma FragmentReady(config: ValidConfig, past: Past, k: nat, open: Assemblies, header: Header, payload: bytes,
                      now: int)
    returns (pieces: seq<bytes>)
    requires header.Valid() && past.accepted(k, header, payload) && SafeToAdd(config, past, k, open)
    requires ReassembleFragment(config, open, header, payload, now).1.Ready?
    ensures ReassembleFragment(config, open, header, payload, now).1.frame
         == ControlFrame(header.originalType, Join(pieces))
    ensures |Join(pieces)| == header.totalPayloadSize && |pieces| == header.fragmentCount
    ensures pieces[header.fragmentIndex] == payload
    ensures forall i :: 0 <= i < |pieces| ==>
              pieces[i] != [] && Held(past, k + 1, header.(fragmentIndex := i), pieces[i])
  {
    FoundIsGenuine(config, past, k, open, header, now);
    var found := FindOrCreate(config, open, header, now).value;
    AddKeepsGenuine(past, k, header, payload, found, now);
    var added := AddFragmentTo(found, header, payload, now).value;
    pieces := added.slots;
    forall i | 0 <= i < |pieces|
      ensures pieces[i] != [] && Held(past, k + 1, header.(fragmentIndex := i), pieces[i])
    {
      assert pieces[i] in added.slots;
      assert header.(fragmentIndex := i) == HeaderOf(header.messageID, added, i);
    }
  }

  /**
   Nothing is invented and nothing is mixed: a message handed out for a fragment is the in-order concatenation of
   nonempty fragments, one for each position, that were all accepted with its id, type, count and total while the
   message was open without interruption, the fragment that completed it among them, and it has exactly the declared
   length.
   */
  lemma ReadyIsGenuine(config: ValidConfig, inputs: seq<Input>, k: nat)
    returns (header: Header, payload: bytes, pieces: seq<bytes>)
    requires k < |inputs| && inputs[k].frame.frameType == FRAGMENT_TYPE
    requires OutcomeAt(config, inputs, k).Ready?
    ensures IsFragment(inputs[k], header, payload)
    ensures OutcomeAt(config, inputs, k).frame == ControlFrame(header.originalType, Join(pieces))
    ensures header.originalType != FRAGMENT_TYPE
    ensures |Join(pieces)| == header.totalPayloadSize && |pieces| == header.fragmentCount
    ensures header.fragmentIndex < |pieces| && pieces[header.fragmentIndex] == payload
    ensures forall i :: 0 <= i < |pieces| ==>
              pieces[i] != [] && Held(PastOf(config, inputs), k + 1, header.(fragmentIndex := i), pieces[i])
  {
    AlwaysSafe(config, inputs, k);
    var past, now := PastOf(config, inputs), inputs[k].now;
    header := DecodeFragment(inputs[k].frame.payload).value.0;
    payload := DecodeFragment(inputs[k].frame.payload).value.1;
    CleanupLeavesSafe(config, inputs, k);
    assert past.accepted(k, header, payload);
    pieces := FragmentReady(config, past, k, Unexpired(config, StateAfter(config, inputs, k), now), header, payload,
                            now);
  }

  /** Why a fragment is refused by the assembly of its message. */
  predicate Unacceptable(a: AssemblyState, header: Header, payload: bytes)
    requires |a.slots| <= 0xFFFF
  {
    if HeaderOf(header.messageID, a, header.fragmentIndex) != header then true
    else if header.fragmentIndex >= |a.slots| then true
    else if a.slots[header.fragmentIndex] != [] then a.slots[header.fragmentIndex] != payload
    else
      var filled := a.slots[header.fragmentIndex := payload];
      || |Join(filled)| % 0x1_0000_0000 > a.totalPayloadSize
      || (a.receivedCount + 1 == |a.slots| && ([] in filled || |Join(filled)| != a.totalPayloadSize))
  }

  lemma DeliveryRefusedExactly(stored: Assemblies, header: Header, payload: bytes, now: int)
    requires header.Valid() && header.messageID in stored
    requires var a := stored[header.messageID];
             a.receivedCount < |a.slots| <= 0xFFFF && a.receivedBytes == |Join(a.slots)|
    ensures DeliverStep(stored, header, payload, now).1.Failed?
       <==> Unacceptable(stored[header.messageID], header, payload)
  {
    var a := stored[header.messageID];
    if HeaderOf(header.messageID, a, header.fragmentIndex) == header && a.slots[header.fragmentIndex] == [] {
      JoinUpdateLength(a.slots, header.fragmentIndex, payload);
    }
  }

  /** The assembly a fragment meets, once the expired ones are gone: the open one of its message or a new one. */
  function Met(open: Assemblies, header: Header, now: int): AssemblyState {
    if header.messageID in open then open[header.messageID] else NewAssembly(header, now)
  }

  /**
   A fragment is refused exactly if it disagrees with the type, count or total of its message or with what its slot
   holds, or has too many bytes, or is the last one and they are too few or a slot stays empty; and for a message that
   is not open, also if as many are open as may be or the parts cannot hold the declared total.
   */
  lemma RefusedExactly(config: ValidConfig, inputs: seq<Input>, k: nat, header: Header, payload: bytes)
    requires k < |inputs| && IsFragment(inputs[k], header, payload)
    ensures var open := Unexpired(config, StateAfter(config, inputs, k), inputs[k].now);
            && |Met(open, header, inputs[k].now).slots| <= 0xFFFF
            && (OutcomeAt(config, inputs, k).Failed? <==>
                  || (header.messageID !in open && |open| >= config.maxInFlight)
                  || (header.messageID !in open && header.totalPayloadSize > MaxTotal(config, header.fragmentCount))
                  || Unacceptable(Met(open, header, inputs[k].now), header, payload))
  {
    AlwaysSafe(config, inputs, k);
    var now := inputs[k].now;
    var open := Unexpired(config, StateAfter(config, inputs, k), now);
    var met := Met(open, header, now);
    EmptyJoin(NewAssembly(header, now).slots);
    assert FindOrCreate(config, open, header, now).Ok? ==> FindOrCreate(config, open, header, now).value == met;
    assert OutcomeAt(config, inputs, k) == ReassembleFragment(config, open, header, payload, now).1;
    DeliveryRefusedExactly(open[header.messageID := met], header, payload, now);
  }
}
