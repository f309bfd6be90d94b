/**
 Splitting and reassembling is a round trip under any interleaving.

 A `Sending` fixes the frames one fragmenter sent and the message id each split frame got. A trace delivers parts of
 those frames in any order; what a well-behaved channel must respect (`Admissible`) is stated on the trace alone.
 */
module ReassemblyRoundTrip {
  import opened Bytes
  import opened Results
  import opened ControlFragmentation
  import opened ReassemblySafety

  // ---------------------------------------------------------------------------------------------
  // What was sent
  // ---------------------------------------------------------------------------------------------

  predicate Sendable(config: ValidConfig, frame: ControlFrame) {
    frame.frameType != FRAGMENT_TYPE && (Small(config, frame) || Splittable(config, frame))
  }

  datatype Sending = Sending(config: ValidConfig, frames: seq<ControlFrame>, ids: seq<uint64>) {
    predicate IsSplit(j: nat)
      requires j < |frames|
    {
      !Small(config, frames[j])
    }

    ghost predicate Valid() {
      && |ids| == |frames|
      && (forall j :: 0 <= j < |frames| ==> Sendable(config, frames[j]))
      && (forall i, j :: 0 <= i < j < |frames| && IsSplit(i) && IsSplit(j) ==> ids[i] != ids[j])
    }

    function Parts(j: nat): (n: nat)
      requires j < |frames|
      ensures n > 0
    {
      if IsSplit(j) then
        ChunksCover(config, frames[j].payload);
        PartCount(config, |frames[j].payload|)
      else 1
    }

    function Part(j: nat, i: nat): ControlFrame
      requires Valid() && j < |frames| && i < Parts(j)
    {
      if IsSplit(j) then PartFrame(config, frames[j], ids[j], i) else frames[j]
    }

    function All(j: nat): set<nat>
      requires j < |frames|
    {
      UpTo(Parts(j))
    }
  }

  function UpTo(n: nat): set<nat> {
    if n == 0 then {} else UpTo(n - 1) + {n - 1}
  }

  lemma UpToHas(n: nat)
    ensures forall i: nat :: i in UpTo(n) <==> i < n
  {
  }

  // ---------------------------------------------------------------------------------------------
  // Traces of deliveries
  // ---------------------------------------------------------------------------------------------

  /** Part `part` of frame number `frame` reaches the reassembler at time `now`. */
  datatype Delivery = Delivery(frame: nat, part: nat, now: int)

  /** The parts of frame `j` among the first `k` deliveries. */
  function Delivered(trace: seq<Delivery>, k: nat, j: nat): set<nat>
    requires k <= |trace|
  {
    if k == 0 then {}
    else Delivered(trace, k - 1, j) + if trace[k - 1].frame == j then {trace[k - 1].part} else {}
  }

  /** When frame `j` was last touched during the first `k` deliveries. */
  function LastTouched(trace: seq<Delivery>, k: nat, j: nat): int
    requires k <= |trace|
  {
    if k == 0 then 0
    else if trace[k - 1].frame == j then trace[k - 1].now
    else LastTouched(trace, k - 1, j)
  }

  /** The split frames of which some but not all parts are among the first `k` deliveries. */
  function Open(s: Sending, trace: seq<Delivery>, k: nat): set<nat>
    requires k <= |trace|
  {
    set j: nat | j < |s.frames| && s.IsSplit(j) && Delivered(trace, k, j) != {} && Delivered(trace, k, j) != s.All(j)
  }

  /** The deliveries name existing parts. */
  ghost predicate InRange(s: Sending, trace: seq<Delivery>) {
    forall k :: 0 <= k < |trace| ==> trace[k].frame < |s.frames| && trace[k].part < s.Parts(trace[k].frame)
  }

  /**
   Delivery `k` is a part of a frame still incomplete (so duplicates come before completion only); if it is a
   fragment, no open message has been idle for longer than the TTL and there is room for it.
   */
  ghost predicate AdmissibleAt(s: Sending, trace: seq<Delivery>, k: nat)
    requires InRange(s, trace) && k < |trace|
  {
    var d := trace[k];
    && Delivered(trace, k, d.frame) != s.All(d.frame)
    && (s.IsSplit(d.frame) ==>
          && (forall j :: j in Open(s, trace, k) ==> d.now - LastTouched(trace, k, j) <= s.config.reassemblyTTL)
          && (d.frame in Open(s, trace, k) || |Open(s, trace, k)| < s.config.maxInFlight))
  }

  ghost predicate Admissible(s: Sending, trace: seq<Delivery>) {
    s.Valid() && InRange(s, trace) && forall k :: 0 <= k < |trace| ==> AdmissibleAt(s, trace, k)
  }

  /** Delivery `k` brings the last missing part of its frame. */
  predicate CompletesAt(s: Sending, trace: seq<Delivery>, k: nat)
    requires k < |trace| && trace[k].frame < |s.frames|
  {
    var j := trace[k].frame;
    Delivered(trace, k, j) != s.All(j) && Delivered(trace, k + 1, j) == s.All(j)
  }

  function Inputs(s: Sending, trace: seq<Delivery>): seq<Input>
    requires s.Valid() && InRange(s, trace)
  {
    seq(|trace|, k requires 0 <= k < |trace| => Input(s.Part(trace[k].frame, trace[k].part), trace[k].now))
  }

  lemma DeliveredGrows(trace: seq<Delivery>, k: nat, m: nat, j: nat)
    requires k <= m <= |trace|
    ensures Delivered(trace, k, j) <= Delivered(trace, m, j)
  {
  }

  lemma DeliveredWithinAll(s: Sending, trace: seq<Delivery>, k: nat, j: nat)
    requires Admissible(s, trace) && k <= |trace| && j < |s.frames|
    ensures Delivered(trace, k, j) <= s.All(j)
  {
    if k > 0 {
      DeliveredWithinAll(s, trace, k - 1, j);
      UpToHas(s.Parts(j));
      assert AdmissibleAt(s, trace, k - 1);
    }
  }

  // ---------------------------------------------------------------------------------------------
  // The chunks of one payload
  // ---------------------------------------------------------------------------------------------

  /** The slots of an assembly that has the chunks in `got`. */
  function Slots(payload: bytes, width: nat, count: nat, got: set<nat>): seq<bytes> {
    seq(count, i requires 0 <= i < count => if i in got then Chunk(payload, width, i) else [])
  }

  lemma Adjacent(s: bytes, a: nat, b: nat)
    requires a <= b <= |s|
    ensures s[..a] + s[a..b] == s[..b]
  {
  }

  lemma {:induction false} ChunksJoin(payload: bytes, width: nat, count: nat, got: set<nat>)
    requires forall i :: 0 <= i < count ==> i in got
    ensures Join(Slots(payload, width, count, got)) == payload[..Min(Offset(count, width), |payload|)]
  {
    if count > 0 {
      ChunksJoin(payload, width, count - 1, got);
      var rest, chunk := Slots(payload, width, count - 1, got), Chunk(payload, width, count - 1);
      var all := Slots(payload, width, count, got);
      assert all == rest + [chunk];
      JoinSnoc(rest, chunk);
      assert Join(all) == payload[..Min(Offset(count - 1, width), |payload|)] + chunk;
      Adjacent(payload, Min(Offset(count - 1, width), |payload|), Min(Offset(count, width), |payload|));
    }
  }

  lemma FewerSlotsShorter(xs: seq<bytes>, ys: seq<bytes>)
    requires |xs| == |ys| && forall i :: 0 <= i < |xs| ==> xs[i] == [] || xs[i] == ys[i]
    ensures |Join(xs)| <= |Join(ys)|
  {
  }

  /** All the chunks of a payload give it back; some of them never exceed it. */
  lemma PayloadFromChunks(config: ValidConfig, payload: bytes, got: set<nat>)
    ensures var n := PartCount(config, |payload|);
            && |Join(Slots(payload, PartSize(config), n, got))| <= |payload|
            && (got == UpTo(n) ==> Join(Slots(payload, PartSize(config), n, got)) == payload)
  {
    var n, w := PartCount(config, |payload|), PartSize(config);
    var all := UpTo(n);
    UpToHas(n);
    ChunksJoin(payload, w, n, all);
    ChunksCover(config, payload);
    FewerSlotsShorter(Slots(payload, w, n, got), Slots(payload, w, n, all));
  }

  // ---------------------------------------------------------------------------------------------
  // One fragment
  // ---------------------------------------------------------------------------------------------

  /** How many of the first `n` numbers are in `got`. */
  function CountBelow(got: set<nat>, n: nat): nat {
    if n == 0 then 0 else CountBelow(got, n - 1) + if n - 1 in got then 1 else 0
  }

  lemma CountOneMore(got: set<nat>, n: nat, i: nat)
    requires i !in got
    ensures CountBelow(got + {i}, n) == CountBelow(got, n) + if i < n then 1 else 0
  {
  }

  lemma CountAll(got: set<nat>, n: nat)
    ensures CountBelow(got, n) <= n
    ensures CountBelow(got, n) == n <==> forall i: nat :: i < n ==> i in got
  {
  }

  /** The assembly of a split frame of which exactly the chunks in `got` have been received. */
  function Picture(config: ValidConfig, frame: ControlFrame, got: set<nat>, last: int): AssemblyState
    requires Splittable(config, frame)
  {
    var slots := Slots(frame.payload, PartSize(config), PartCount(config, |frame.payload|), got);
    AssemblyState(frame.frameType, |frame.payload|, slots, CountBelow(got, |slots|), |Join(slots)|, last)
  }

  /** A new chunk fills its slot and adds its length. */
  lemma AddSlot(payload: bytes, width: nat, count: nat, got: set<nat>, i: nat)
    requires i < count && i !in got
    ensures var slots, chunk := Slots(payload, width, count, got), Chunk(payload, width, i);
            && slots[i] == [] && Slots(payload, width, count, got + {i}) == slots[i := chunk]
            && |Join(slots[i := chunk])| == |Join(slots)| + |chunk|
  {
    JoinUpdateLength(Slots(payload, width, count, got), i, Chunk(payload, width, i));
  }

  lemma AddToPicture(config: ValidConfig, frame: ControlFrame, id: uint64, got: set<nat>, i: nat, last: int, now: int)
    requires Splittable(config, frame) && i < PartCount(config, |frame.payload|)
    ensures AddFragmentTo(Picture(config, frame, got, last), PartHeader(config, frame, id, i),
                          Chunk(frame.payload, PartSize(config), i), now)
         == Ok(Picture(config, frame, got + {i}, now))
  {
    var w, n := PartSize(config), PartCount(config, |frame.payload|);
    ChunkBounds(config, frame.payload, i);
    if i in got {
      assert got + {i} == got;
    } else {
      AddSlot(frame.payload, w, n, got, i);
      CountOneMore(got, n, i);
      PayloadFromChunks(config, frame.payload, got + {i});
    }
  }

  /** A picture is complete exactly when it has all chunks, and then it yields the original frame. */
  lemma PictureCompletes(config: ValidConfig, frame: ControlFrame, got: set<nat>, last: int)
    requires Splittable(config, frame)
    requires got <= UpTo(PartCount(config, |frame.payload|))
    ensures var a := Picture(config, frame, got, last);
            && (a.Complete() <==> got == UpTo(PartCount(config, |frame.payload|)))
            && (a.Complete() ==> Finish(a) == Ready(frame))
  {
    var n := PartCount(config, |frame.payload|);
    UpToHas(n);
    CountAll(got, n);
    var a := Picture(config, frame, got, last);
    if a.Complete() {
      PayloadFromChunks(config, frame.payload, got);
      forall i | 0 <= i < n
        ensures a.slots[i] != []
      {
        ChunkBounds(config, frame.payload, i);
      }
    }
  }

  lemma NothingCounted(n: nat)
    ensures CountBelow({}, n) == 0
  {
  }

  /** The first fragment of a message opens an assembly that pictures "nothing received yet". */
  lemma FreshPicture(config: ValidConfig, frame: ControlFrame, id: uint64, i: nat, now: int)
    requires Splittable(config, frame) && i < PartCount(config, |frame.payload|)
    ensures NewAssembly(PartHeader(config, frame, id, i), now) == Picture(config, frame, {}, now)
    ensures |frame.payload| <= MaxTotal(config, PartCount(config, |frame.payload|))
  {
    var w, n := PartSize(config), PartCount(config, |frame.payload|);
    EmptyJoin(Slots(frame.payload, w, n, {}));
    NothingCounted(n);
    ChunksCover(config, frame.payload);
    assert Offset(n, w) < 0x2_0000_0000;
  }

  lemma FindPicture(config: ValidConfig, open: Assemblies, frame: ControlFrame, id: uint64, got: set<nat>, i: nat,
                    last: int, now: int)
    requires Splittable(config, frame) && i < PartCount(config, |frame.payload|)
    requires if id in open then open[id] == Picture(config, frame, got, last)
             else got == {} && |open| < config.maxInFlight && last == now
    ensures FindOrCreate(config, open, PartHeader(config, frame, id, i), now) == Ok(Picture(config, frame, got, last))
  {
    FreshPicture(config, frame, id, i, now);
  }

  lemma FragmentOutcome(config: ValidConfig, open: Assemblies, header: Header, payload: bytes, now: int,
                        found: AssemblyState, added: AssemblyState)
    requires header.fragmentIndex < header.fragmentCount
    requires FindOrCreate(config, open, header, now) == Ok(found)
    requires AddFragmentTo(found, header, payload, now) == Ok(added)
    ensures ReassembleFragment(config, open, header, payload, now)
         == if added.Complete() then (open - {header.messageID}, Finish(added))
            else (open[header.messageID := added], NotReady)
  {
    var stored: Assemblies := open[header.messageID := found];
    assert stored - {header.messageID} == open - {header.messageID};
    assert stored[header.messageID := added] == open[header.messageID := added];
  }

  /**
   One genuine fragment: the message's assembly moves from the picture of `got` to the picture of `got + {i}`,
   every other assembly is left alone, and the frame comes out exactly when `got + {i}` is everything.
   */
  lemma FragmentStep(config: ValidConfig, open: Assemblies, frame: ControlFrame, id: uint64, got: set<nat>, i: nat,
                     last: int, now: int)
    requires Splittable(config, frame) && i < PartCount(config, |frame.payload|)
    requires got <= UpTo(PartCount(config, |frame.payload|))
    requires if id in open then open[id] == Picture(config, frame, got, last)
             else got == {} && |open| < config.maxInFlight
    ensures ReassembleFragment(config, open, PartHeader(config, frame, id, i),
                               Chunk(frame.payload, PartSize(config), i), now)
         == if got + {i} == UpTo(PartCount(config, |frame.payload|)) then (open - {id}, Ready(frame))
            else (open[id := Picture(config, frame, got + {i}, now)], NotReady)
  {
    var last' := if id in open then last else now;
    FindPicture(config, open, frame, id, got, i, last', now);
    AddToPicture(config, frame, id, got, i, last', now);
    FragmentOutcome(config, open, PartHeader(config, frame, id, i), Chunk(frame.payload, PartSize(config), i), now,
                    Picture(config, frame, got, last'), Picture(config, frame, got + {i}, now));
    UpToHas(PartCount(config, |frame.payload|));
    PictureCompletes(config, frame, got + {i}, now);
  }

  // ---------------------------------------------------------------------------------------------
  // Whole traces
  // ---------------------------------------------------------------------------------------------

  ghost predicate Held(s: Sending, trace: seq<Delivery>, k: nat, st: Assemblies, j: nat)
    requires s.Valid() && k <= |trace| && j < |s.frames| && s.IsSplit(j)
  {
    && s.ids[j] in st
    && st[s.ids[j]] == Picture(s.config, s.frames[j], Delivered(trace, k, j), LastTouched(trace, k, j))
  }

  ghost predicate AllHeld(s: Sending, trace: seq<Delivery>, k: nat, st: Assemblies)
    requires s.Valid() && k <= |trace|
  {
    forall j :: j in Open(s, trace, k) ==> Held(s, trace, k, st, j)
  }

  ghost predicate KeysMatch(s: Sending, trace: seq<Delivery>, k: nat, st: Assemblies)
    requires k <= |trace| && |s.ids| == |s.frames|
  {
    forall id :: id in st <==> exists j :: j in Open(s, trace, k) && s.ids[j] == id
  }

  /** The reassembler holds exactly the pictures of the open messages. */
  ghost predicate Matches(s: Sending, trace: seq<Delivery>, k: nat, st: Assemblies)
    requires s.Valid() && k <= |trace|
  {
    KeysMatch(s, trace, k, st) && AllHeld(s, trace, k, st)
  }

  lemma ImageSize(ids: seq<uint64>, js: set<nat>)
    requires forall j :: j in js ==> j < |ids|
    requires forall i, j :: i in js && j in js && i != j ==> ids[i] != ids[j]
    ensures |set j | j in js :: ids[j]| == |js|
  {
    if js != {} {
      var j :| j in js;
      ImageSize(ids, js - {j});
      assert (set i | i in js :: ids[i]) == (set i | i in js - {j} :: ids[i]) + {ids[j]};
    }
  }

  /** With the clock within the TTL nothing expires. */
  lemma NothingExpires(s: Sending, trace: seq<Delivery>, k: nat, st: Assemblies, now: int)
    requires s.Valid() && k <= |trace| && Matches(s, trace, k, st)
    requires forall j :: j in Open(s, trace, k) ==> now - LastTouched(trace, k, j) <= s.config.reassemblyTTL
    ensures Unexpired(s.config, st, now) == st
  {
    forall id | id in st
      ensures !(st[id].lastUpdatedAt < now - s.config.reassemblyTTL)
    {
      var j :| j in Open(s, trace, k) && s.ids[j] == id;
      assert Held(s, trace, k, st, j);
    }
  }

  lemma OneEach(s: Sending, trace: seq<Delivery>, k: nat, st: Assemblies)
    requires s.Valid() && k <= |trace| && KeysMatch(s, trace, k, st)
    ensures |st| == |Open(s, trace, k)|
  {
    ImageSize(s.ids, Open(s, trace, k));
    assert st.Keys == set j | j in Open(s, trace, k) :: s.ids[j];
    assert |st| == |st.Keys|;
  }

  /** Only the delivered frame can open or close. */
  lemma OtherFrames(s: Sending, trace: seq<Delivery>, k: nat, j: nat)
    requires k < |trace| && j < |s.frames|
    ensures if j == trace[k].frame then Delivered(trace, k + 1, j) == Delivered(trace, k, j) + {trace[k].part}
            else && Delivered(trace, k + 1, j) == Delivered(trace, k, j)
                 && LastTouched(trace, k + 1, j) == LastTouched(trace, k, j)
                 && (j in Open(s, trace, k + 1) <==> j in Open(s, trace, k))
  {
  }

  /** One delivery keeps the match and hands out a frame exactly when it brings the last missing part. */
  lemma StepMatches(s: Sending, trace: seq<Delivery>, k: nat, st: Assemblies)
    requires Admissible(s, trace) && k < |trace| && Matches(s, trace, k, st)
    ensures var (next, outcome) := ReassembleStep(s.config, st, Inputs(s, trace)[k].frame, trace[k].now);
            && Matches(s, trace, k + 1, next)
            && outcome == if CompletesAt(s, trace, k) then Ready(s.frames[trace[k].frame]) else NotReady
  {
    assert AdmissibleAt(s, trace, k);
    var d := trace[k];
    if s.IsSplit(d.frame) {
      SplitStepMatches(s, trace, k, st);
    } else {
      OtherFrames(s, trace, k, d.frame);
      DeliveredWithinAll(s, trace, k, d.frame);
      assert s.All(d.frame) == UpTo(0) + {0};
      MatchesUntouched(s, trace, k, st);
    }
  }

  /** A frame sent whole leaves the open messages alone. */
  lemma MatchesUntouched(s: Sending, trace: seq<Delivery>, k: nat, st: Assemblies)
    requires s.Valid() && k < |trace| && trace[k].frame < |s.frames| && !s.IsSplit(trace[k].frame)
    requires Matches(s, trace, k, st)
    ensures Matches(s, trace, k + 1, st)
  {
    var open, open' := Open(s, trace, k), Open(s, trace, k + 1);
    forall j: nat | j < |s.frames|
      ensures j in open' <==> j in open
    {
      OtherFrames(s, trace, k, j);
    }
    forall j | j in open'
      ensures Held(s, trace, k + 1, st, j)
    {
      OtherFrames(s, trace, k, j);
      assert Held(s, trace, k, st, j);
    }
  }

  lemma SplitStepMatches(s: Sending, trace: seq<Delivery>, k: nat, st: Assemblies)
    requires Admissible(s, trace) && k < |trace| && Matches(s, trace, k, st) && s.IsSplit(trace[k].frame)
    ensures var (next, outcome) := ReassembleStep(s.config, st, Inputs(s, trace)[k].frame, trace[k].now);
            && Matches(s, trace, k + 1, next)
            && outcome == if CompletesAt(s, trace, k) then Ready(s.frames[trace[k].frame]) else NotReady
  {
    assert AdmissibleAt(s, trace, k);
    var d := trace[k];
    var frame, id, got := s.frames[d.frame], s.ids[d.frame], Delivered(trace, k, d.frame);
    NothingExpires(s, trace, k, st, d.now);
    OneEach(s, trace, k, st);
    StepOnPart(s.config, st, frame, id, d.part, d.now);
    DeliveredWithinAll(s, trace, k, d.frame);
    StoredWhenOpen(s, trace, k, st, d.frame);
    assert d.frame in Open(s, trace, k) ==> Held(s, trace, k, st, d.frame);
    FragmentStep(s.config, st, frame, id, got, d.part, LastTouched(trace, k, d.frame), d.now);
    OtherFrames(s, trace, k, d.frame);
    var next := ReassembleStep(s.config, st, Inputs(s, trace)[k].frame, d.now).0;
    ForgetOne(st, id, Picture(s.config, frame, got + {d.part}, d.now));
    HeldNext(s, trace, k, st, next);
    KeysNext(s, trace, k, st, next);
  }

  lemma ForgetOne(st: Assemblies, id: uint64, a: AssemblyState)
    ensures st - {id} - {id} == st - {id}
    ensures st[id := a] - {id} == st - {id}
  {
  }

  /** A message has an assembly exactly while it is open. */
  lemma StoredWhenOpen(s: Sending, trace: seq<Delivery>, k: nat, st: Assemblies, j: nat)
    requires s.Valid() && k <= |trace| && KeysMatch(s, trace, k, st) && j < |s.frames| && s.IsSplit(j)
    ensures s.ids[j] in st <==> j in Open(s, trace, k)
  {
    if s.ids[j] in st {
      var i :| i in Open(s, trace, k) && s.ids[i] == s.ids[j];
      assert i == j;
    }
  }

  /** A part frame decodes to its own header and chunk. */
  lemma StepOnPart(config: ValidConfig, st: Assemblies, frame: ControlFrame, id: uint64, i: nat, now: int)
    requires Splittable(config, frame) && i < PartCount(config, |frame.payload|)
    ensures ReassembleStep(config, st, PartFrame(config, frame, id, i), now)
         == ReassembleFragment(config, Unexpired(config, st, now), PartHeader(config, frame, id, i),
                               Chunk(frame.payload, PartSize(config), i), now)
  {
    DecodeInvertsEncode(PartHeader(config, frame, id, i), Chunk(frame.payload, PartSize(config), i));
  }

  /** A delivery that touches only its own message's assembly. */
  ghost predicate OneTouched(s: Sending, trace: seq<Delivery>, k: nat, st: Assemblies, next: Assemblies)
    requires k < |trace| && |s.ids| == |s.frames|
  {
    var d := trace[k].frame;
    && d < |s.frames| && s.IsSplit(d)
    && next - {s.ids[d]} == st - {s.ids[d]}
    && (s.ids[d] in next <==> Delivered(trace, k + 1, d) != s.All(d))
  }

  lemma HeldNext(s: Sending, trace: seq<Delivery>, k: nat, st: Assemblies, next: Assemblies)
    requires s.Valid() && k < |trace| && OneTouched(s, trace, k, st, next)
    requires AllHeld(s, trace, k, st)
    requires s.ids[trace[k].frame] in next ==> Held(s, trace, k + 1, next, trace[k].frame)
    ensures AllHeld(s, trace, k + 1, next)
  {
    var open' := Open(s, trace, k + 1);
    forall j | j in open'
      ensures Held(s, trace, k + 1, next, j)
    {
      OtherFrames(s, trace, k, j);
      if j != trace[k].frame {
        assert Held(s, trace, k, st, j);
        assert s.ids[j] in st - {s.ids[trace[k].frame]};
      }
    }
  }

  lemma KeysNext(s: Sending, trace: seq<Delivery>, k: nat, st: Assemblies, next: Assemblies)
    requires s.Valid() && k < |trace| && OneTouched(s, trace, k, st, next)
    requires KeysMatch(s, trace, k, st)
    ensures KeysMatch(s, trace, k + 1, next)
  {
    var d := trace[k].frame;
    var open' := Open(s, trace, k + 1);
    assert forall id :: id != s.ids[d] ==> (id in next <==> id in st - {s.ids[d]});
    OtherFrames(s, trace, k, d);
    forall j | j in open'
      ensures s.ids[j] in next
    {
      OtherFrames(s, trace, k, j);
    }
    forall id | id in next
      ensures exists j :: j in open' && s.ids[j] == id
    {
      if id == s.ids[d] {
        assert d in open';
      } else {
        var j :| j in Open(s, trace, k) && s.ids[j] == id;
        OtherFrames(s, trace, k, j);
      }
    }
  }

  ghost predicate MatchesAfter(s: Sending, trace: seq<Delivery>, k: nat) {
    && Admissible(s, trace) && k <= |trace|
    && Matches(s, trace, k, StateAfter(s.config, Inputs(s, trace), k))
  }

  lemma MatchesInitially(s: Sending, trace: seq<Delivery>)
    requires Admissible(s, trace)
    ensures MatchesAfter(s, trace, 0)
  {
    assert Open(s, trace, 0) == {};
  }

  lemma MatchesFollows(s: Sending, trace: seq<Delivery>, k: nat)
    requires MatchesAfter(s, trace, k) && k < |trace|
    ensures MatchesAfter(s, trace, k + 1)
  {
    StepMatches(s, trace, k, StateAfter(s.config, Inputs(s, trace), k));
  }

  lemma {:induction false} RunMatches(s: Sending, trace: seq<Delivery>, k: nat)
    requires Admissible(s, trace) && k <= |trace|
    ensures forall i: nat :: i <= k ==> MatchesAfter(s, trace, i)
  {
    if k == 0 {
      MatchesInitially(s, trace);
    } else {
      RunMatches(s, trace, k - 1);
      MatchesFollows(s, trace, k - 1);
    }
  }

  /**
   Round trip under any interleaving: on an admissible trace no call fails, and a call hands out a frame exactly when
   its fragment is the last missing part of that frame; the frame handed out is the original one.
   */
  lemma RoundTrip(s: Sending, trace: seq<Delivery>)
    requires Admissible(s, trace)
    ensures forall k :: 0 <= k < |trace| ==>
              && trace[k].frame < |s.frames|
              && OutcomeAt(s.config, Inputs(s, trace), k)
                 == if CompletesAt(s, trace, k) then Ready(s.frames[trace[k].frame]) else NotReady
  {
    forall k | 0 <= k < |trace|
      ensures && trace[k].frame < |s.frames|
              && OutcomeAt(s.config, Inputs(s, trace), k)
                 == if CompletesAt(s, trace, k) then Ready(s.frames[trace[k].frame]) else NotReady
    {
      assert AdmissibleAt(s, trace, k);
      RunMatches(s, trace, k);
      assert MatchesAfter(s, trace, k);
      StepMatches(s, trace, k, StateAfter(s.config, Inputs(s, trace), k));
    }
  }

  lemma CompletesOnce(s: Sending, trace: seq<Delivery>, k: nat, m: nat)
    requires Admissible(s, trace) && k < m < |trace| && trace[k].frame == trace[m].frame
    ensures !CompletesAt(s, trace, k)
  {
    assert AdmissibleAt(s, trace, m);
    DeliveredGrows(trace, k + 1, m, trace[k].frame);
    DeliveredWithinAll(s, trace, m, trace[k].frame);
  }

  /** Exactly once: a frame whose parts were all delivered was completed by exactly one delivery, its last. */
  lemma {:induction false} CompletedOnce(s: Sending, trace: seq<Delivery>, m: nat, j: nat) returns (at: nat)
    requires Admissible(s, trace) && m <= |trace| && j < |s.frames|
    requires Delivered(trace, m, j) == s.All(j)
    ensures at < m && trace[at].frame == j && CompletesAt(s, trace, at)
    ensures forall k :: 0 <= k < |trace| && trace[k].frame == j ==> k <= at
    ensures forall k :: 0 <= k < at && trace[k].frame == j ==> !CompletesAt(s, trace, k)
  {
    UpToHas(s.Parts(j));
    if Delivered(trace, m - 1, j) == s.All(j) {
      at := CompletedOnce(s, trace, m - 1, j);
    } else {
      at := m - 1;
      forall k | 0 <= k < at && trace[k].frame == j
        ensures !CompletesAt(s, trace, k)
      {
        CompletesOnce(s, trace, k, at);
      }
      forall k | m <= k < |trace| && trace[k].frame == j
        ensures false
      {
        assert !CompletesAt(s, trace, at) by {
          CompletesOnce(s, trace, at, k);
        }
      }
    }
  }

  /**
   Why repetitions must come before completion: nothing remembers a message that is not open. A fragment of one, such as
   a repetition after its frame came out, opens another assembly exactly if there is room and its sizes are plausible,
   and is an error otherwise.
   */
  lemma UnknownFragmentOpensAnother(config: ValidConfig, open: Assemblies, header: Header, payload: bytes, now: int)
    requires header.fragmentIndex < header.fragmentCount && header.fragmentCount > 1 && header.messageID !in open
    ensures var (next, outcome) := ReassembleFragment(config, open, header, payload, now);
            if |open| < config.maxInFlight && header.totalPayloadSize <= MaxTotal(config, header.fragmentCount)
               && |payload| % 0x1_0000_0000 <= header.totalPayloadSize
            then outcome == NotReady && header.messageID in next && next[header.messageID].receivedCount == 1
            else outcome.Failed? && header.messageID !in next
  {
    var created := NewAssembly(header, now);
    assert !created.(receivedCount := 1).Complete();
    assert created.slots[header.fragmentIndex] == [];
  }

  // ---------------------------------------------------------------------------------------------
  // One fragmenter produces such a sending
  // ---------------------------------------------------------------------------------------------

  /** The message counter before frame `j`, having started at `counter`. */
  function CounterBefore(config: ValidConfig, counter: uint64, frames: seq<ControlFrame>, j: nat): uint64
    requires j <= |frames|
  {
    if j == 0 then counter else CounterAfter(config, CounterBefore(config, counter, frames, j - 1), frames[j - 1])
  }

  /** How many of the first `j` frames get split. */
  function SplitsBefore(config: ValidConfig, frames: seq<ControlFrame>, j: nat): nat
    requires j <= |frames|
  {
    if j == 0 then 0
    else SplitsBefore(config, frames, j - 1) + if Splittable(config, frames[j - 1]) then 1 else 0
  }

  function SentBy(config: ValidConfig, counter: uint64, frames: seq<ControlFrame>): Sending {
    Sending(config, frames,
            seq(|frames|, j requires 0 <= j < |frames| => CounterBefore(config, counter, frames, j + 1)))
  }

  lemma CounterCountsSplits(config: ValidConfig, counter: uint64, frames: seq<ControlFrame>, j: nat)
    requires j <= |frames|
    ensures CounterBefore(config, counter, frames, j)
         == (counter + SplitsBefore(config, frames, j)) % 0x1_0000_0000_0000_0000
  {
  }

  lemma SplitsGrow(config: ValidConfig, frames: seq<ControlFrame>, i: nat, j: nat)
    requires i <= j <= |frames|
    ensures SplitsBefore(config, frames, i) <= SplitsBefore(config, frames, j)
    ensures SplitsBefore(config, frames, j) <= SplitsBefore(config, frames, i) + j - i
  {
  }

  lemma DistinctResidues(x: nat, y: nat)
    requires x < y < x + 0x1_0000_0000_0000_0000
    ensures x % 0x1_0000_0000_0000_0000 != y % 0x1_0000_0000_0000_0000
  {
  }

  lemma DistinctIDs(config: ValidConfig, counter: uint64, frames: seq<ControlFrame>, i: nat, j: nat)
    requires |frames| <= 0x1_0000_0000_0000_0000
    requires i < j < |frames| && Splittable(config, frames[j])
    ensures CounterBefore(config, counter, frames, i + 1) != CounterBefore(config, counter, frames, j + 1)
  {
    CounterCountsSplits(config, counter, frames, i + 1);
    CounterCountsSplits(config, counter, frames, j + 1);
    SplitsGrow(config, frames, i + 1, j);
    assert SplitsBefore(config, frames, j + 1) == SplitsBefore(config, frames, j) + 1;
    DistinctResidues(counter + SplitsBefore(config, frames, i + 1), counter + SplitsBefore(config, frames, j + 1));
  }

  /**
   Sending up to 2^64 frames through one fragmenter gives the split ones distinct ids, and what the fragmenter returns
   for frame `j` are exactly the parts the traces deliver.
   */
  lemma FragmenterSends(config: ValidConfig, counter: uint64, frames: seq<ControlFrame>)
    requires |frames| <= 0x1_0000_0000_0000_0000
    requires forall j :: 0 <= j < |frames| ==> Sendable(config, frames[j])
    ensures var s := SentBy(config, counter, frames);
            && s.Valid()
            && forall j :: 0 <= j < |frames| ==>
                 SplitFrame(config, CounterBefore(config, counter, frames, j), frames[j])
                 == Ok(seq(s.Parts(j), i requires 0 <= i < s.Parts(j) => s.Part(j, i)))
  {
    var s := SentBy(config, counter, frames);
    forall i, j | 0 <= i < j < |frames| && s.IsSplit(i) && s.IsSplit(j)
      ensures s.ids[i] != s.ids[j]
    {
      DistinctIDs(config, counter, frames, i, j);
    }
    assert s.Valid();
    forall j | 0 <= j < |frames|
      ensures SplitFrame(config, CounterBefore(config, counter, frames, j), frames[j])
           == Ok(seq(s.Parts(j), i requires 0 <= i < s.Parts(j) => s.Part(j, i)))
    {
      PartsAreFragments(s, counter, j);
    }
  }

  lemma PartsAreFragments(s: Sending, counter: uint64, j: nat)
    requires s.Valid() && s == SentBy(s.config, counter, s.frames) && j < |s.frames|
    ensures SplitFrame(s.config, CounterBefore(s.config, counter, s.frames, j), s.frames[j])
         == Ok(seq(s.Parts(j), i requires 0 <= i < s.Parts(j) => s.Part(j, i)))
  {
    var sent := SplitFrame(s.config, CounterBefore(s.config, counter, s.frames, j), s.frames[j]);
    assert sent.value == seq(s.Parts(j), i requires 0 <= i < s.Parts(j) => s.Part(j, i));
  }
}
