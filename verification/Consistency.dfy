/**
 Idempotent, version-monotone application of resource events (ltfp/consistency): a bounded window of recently seen
 event keys in front of a table of resource versions.
 */
module Consistency {
  import opened Basics
  import opened Bytes
  import opened Results
  import opened Strings

  // ---------------------------------------------------------------------------------------------
  // Replay window
  // ---------------------------------------------------------------------------------------------

  function Suffix(s: seq<string>, n: nat): seq<string> {
    if |s| > n then s[|s| - n..] else s
  }

  /** One call of SeenOrAdd on the keys in insertion order: a hit changes nothing, a miss may evict the oldest key. */
  function Record(capacity: nat, order: seq<string>, key: string): seq<string> {
    if key in order then order
    else if |order + [key]| > capacity then (order + [key])[1..]
    else order + [key]
  }

  function WindowAfter(capacity: nat, keys: seq<string>, k: nat): seq<string>
    requires k <= |keys|
  {
    if k == 0 then [] else Record(capacity, WindowAfter(capacity, keys, k - 1), keys[k - 1])
  }

  /** The keys that were inserted, that is, not among the last `capacity` inserted before them. */
  function Insertions(capacity: nat, keys: seq<string>, k: nat): seq<string>
    requires k <= |keys|
  {
    if k == 0 then []
    else
      var before := Insertions(capacity, keys, k - 1);
      if keys[k - 1] in Suffix(before, capacity) then before else before + [keys[k - 1]]
  }

  /** Recording a key that the last `capacity` insertions do not hold is inserting it. */
  lemma RecordExtends(capacity: nat, before: seq<string>, key: string)
    requires capacity > 0 && key !in Suffix(before, capacity)
    ensures Record(capacity, Suffix(before, capacity), key) == Suffix(before + [key], capacity)
  {
    var window := Suffix(before, capacity);
    if |before| >= capacity {
      assert before == before[..|before| - capacity] + window;
      assert (before + [key])[|before| + 1 - capacity..] == window[1..] + [key];
      assert (window + [key])[1..] == window[1..] + [key];
    }
  }

  lemma RecordKeepsDistinct(capacity: nat, order: seq<string>, key: string)
    requires capacity > 0 && NoDuplicates(order) && |order| <= capacity
    ensures NoDuplicates(Record(capacity, order, key)) && |Record(capacity, order, key)| <= capacity
  {
    if key !in order {
      NoDuplicatesSnoc(order, key);
    }
  }

  /** `window` is the last `capacity` insertions, without duplicates. */
  ghost predicate WindowMatches(capacity: nat, window: seq<string>, inserted: seq<string>) {
    window == Suffix(inserted, capacity) && NoDuplicates(window) && |window| <= capacity
  }

  lemma WindowMatchesNext(capacity: nat, window: seq<string>, inserted: seq<string>, key: string)
    requires capacity > 0 && WindowMatches(capacity, window, inserted)
    ensures WindowMatches(capacity, Record(capacity, window, key),
                          if key in Suffix(inserted, capacity) then inserted else inserted + [key])
  {
    RecordKeepsDistinct(capacity, window, key);
    if key !in Suffix(inserted, capacity) {
      RecordExtends(capacity, inserted, key);
    }
  }

  /**
   The window is the last `capacity` insertions, without duplicates; so a key counts as seen exactly while fewer than
   `capacity` other keys have been inserted after it, and hits do not renew it.
   */
  lemma {:induction false} WindowIsRecentInsertions(capacity: nat, keys: seq<string>, k: nat)
    requires capacity > 0 && k <= |keys|
    ensures WindowMatches(capacity, WindowAfter(capacity, keys, k), Insertions(capacity, keys, k))
  {
    if k > 0 {
      WindowIsRecentInsertions(capacity, keys, k - 1);
      WindowMatchesNext(capacity, WindowAfter(capacity, keys, k - 1), Insertions(capacity, keys, k - 1), keys[k - 1]);
    }
  }

  class ReplayWindow {
    const capacity: nat
    var order: seq<string>
    var seen: set<string>

    /** The order list and the set hold the same keys, none twice, and at most `capacity` of them. */
    ghost predicate Valid()
      reads this
    {
      && capacity > 0 && |order| <= capacity && NoDuplicates(order)
      && seen == set k | k in order
    }

    constructor (capacity: int)
      ensures Valid() && order == [] && this.capacity == if capacity <= 0 then 1 else capacity
    {
      this.capacity := if capacity <= 0 then 1 else capacity;
      order, seen := [], {};
    }

    method SeenOrAdd(key: string) returns (hit: bool)
      requires Valid()
      modifies this
      ensures Valid()
      ensures hit <==> key in old(order)
      ensures order == Record(capacity, old(order), key)
    {
      if key in seen {
        return true;
      }
      NoDuplicatesSnoc(order, key);
      seen := seen + {key};
      order := order + [key];
      assert seen == set k | k in order;
      RecordKeepsDistinct(capacity, old(order), key);
      if |order| > capacity {
        var evicted := order[0];
        assert order == [evicted] + order[1..];
        assert evicted !in order[1..];
        assert forall k :: k in order <==> k == evicted || k in order[1..];
        order := order[1..];
        seen := seen - {evicted};
      }
      hit := false;
    }
  }

  // ---------------------------------------------------------------------------------------------
  // Event keys
  // ---------------------------------------------------------------------------------------------

  datatype ErrorCode =
    | MissingRequiredField | InvalidSessionEpoch | InvalidEventID | InvalidResourceVersion | VersionRollback

  datatype EventMeta = EventMeta(
    sessionID: string, sessionEpoch: uint64, eventID: string,
    resourceType: string, resourceID: string, resourceVersion: uint64)

  function JoinKey(left: string, right: string): string {
    left + ":" + right
  }

  /** The dedup key and the resource key of an event, or why it is rejected. */
  function Keys(meta: EventMeta): Result<(string, string), ErrorCode> {
    if Trim(meta.sessionID) == "" then Err(MissingRequiredField)
    else if meta.sessionEpoch == 0 then Err(InvalidSessionEpoch)
    else if Trim(meta.eventID) == "" then Err(InvalidEventID)
    else if meta.resourceVersion == 0 then Err(InvalidResourceVersion)
    else if Trim(meta.resourceType) == "" || Trim(meta.resourceID) == "" then Err(MissingRequiredField)
    else
      Ok((JoinKey(Trim(meta.sessionID), Trim(meta.eventID)), JoinKey(Trim(meta.resourceType), Trim(meta.resourceID))))
  }

  predicate UsableID(id: string) {
    id != "" && Trimmed(id)
  }

  /**
   Some key whose left part is `s`, a session id or a resource type, is also the key of a shorter left part with another
   right part.
   */
  ghost predicate Collides(s: string) {
    exists right, s2, right2 ::
      && UsableID(right) && UsableID(s2) && UsableID(right2)
      && |s2| < |s| && JoinKey(s, right) == JoinKey(s2, right2)
  }

  /** A colon at `i` splits `s` into another usable left part and the start of a usable right part. */
  predicate SplitsAt(s: string, i: nat)
    requires i < |s|
  {
    s[i] == ':' && UsableID(s[..i]) && (i + 1 == |s| || !IsSpace(s[i + 1]))
  }

  lemma CollisionSplits(s: string, right: string, s2: string, right2: string)
    requires UsableID(s) && UsableID(right) && UsableID(s2) && UsableID(right2)
    requires |s2| < |s| && JoinKey(s, right) == JoinKey(s2, right2)
    ensures SplitsAt(s, |s2|)
  {
    var key, i := JoinKey(s, right), |s2|;
    assert key[..i] == s2 && key[..|s|] == s && key[i] == ':' && key[i + 1..] == right2;
    assert s2 == s[..i] && s[i] == key[i];
    assert right2[0] == key[i + 1];
  }

  lemma SplitCollides(s: string, i: nat)
    requires UsableID(s) && i < |s| && SplitsAt(s, i)
    ensures Collides(s)
  {
    var right2 := s[i + 1..] + ":" + "e";
    assert s == s[..i] + ":" + s[i + 1..];
    assert JoinKey(s, "e") == JoinKey(s[..i], right2);
    assert UsableID(right2) && UsableID("e");
  }

  /**
   Joined keys are not injective: the colon confuses sessions (dedup keys) and resource types (resource keys). Some key
   of the left part `s` is also one of a shorter left part exactly if one of the colons of `s` splits it.
   */
  lemma CollisionsComeFromColons(s: string)
    requires UsableID(s)
    ensures Collides(s) <==> exists i: nat :: i < |s| && SplitsAt(s, i)
  {
    if Collides(s) {
      var right, s2, right2 :|
        && UsableID(right) && UsableID(s2) && UsableID(right2)
        && |s2| < |s| && JoinKey(s, right) == JoinKey(s2, right2);
      CollisionSplits(s, right, s2, right2);
    }
    forall i: nat | i < |s| && SplitsAt(s, i) ensures Collides(s) {
      SplitCollides(s, i);
    }
  }

  /** The usable pair `left`, `right` shares its key with `left2`, `right2`. */
  predicate SharesKey(left: string, right: string, left2: string, right2: string) {
    && UsableID(left2) && UsableID(right2) && (left2, right2) != (left, right)
    && JoinKey(left2, right2) == JoinKey(left, right)
  }

  /** A colon at `i`, other than the one that joins the key, cuts it into two usable parts, too. */
  predicate CutsOtherwise(left: string, right: string, i: nat) {
    var key := JoinKey(left, right);
    i != |left| && i < |key| && key[i] == ':' && UsableID(key[..i]) && UsableID(key[i + 1..])
  }

  lemma CutShares(left: string, right: string, i: nat)
    requires CutsOtherwise(left, right, i)
    ensures SharesKey(left, right, JoinKey(left, right)[..i], JoinKey(left, right)[i + 1..])
  {
    var key := JoinKey(left, right);
    assert JoinKey(key[..i], key[i + 1..]) == key;
  }

  lemma SharedCuts(left: string, right: string, left2: string, right2: string)
    requires SharesKey(left, right, left2, right2)
    ensures CutsOtherwise(left, right, |left2|)
  {
    var key := JoinKey(left, right);
    assert left == key[..|left|] && right == key[|left| + 1..];
    assert key[..|left2|] == left2 && key[|left2|] == ':' && key[|left2| + 1..] == right2;
  }

  /** A pair of ids shares its key with another pair exactly if another colon of the key cuts it into two usable ids. */
  lemma KeySharedExactly(left: string, right: string)
    requires UsableID(left) && UsableID(right)
    ensures (exists left2, right2 :: SharesKey(left, right, left2, right2))
            <==> exists i: nat :: CutsOtherwise(left, right, i)
  {
    forall left2, right2 | SharesKey(left, right, left2, right2)
      ensures CutsOtherwise(left, right, |left2|)
    {
      SharedCuts(left, right, left2, right2);
    }
    forall i: nat | CutsOtherwise(left, right, i)
      ensures SharesKey(left, right, JoinKey(left, right)[..i], JoinKey(left, right)[i + 1..])
    {
      CutShares(left, right, i);
    }
  }

  // ---------------------------------------------------------------------------------------------
  // The guard
  // ---------------------------------------------------------------------------------------------

  datatype Status = Accepted | Duplicate | Rejected

  datatype Decision = Decision(
    status: Status, dedupKey: string, resourceKey: string,
    acceptedVersion: uint64, currentVersion: uint64, error: Option<ErrorCode>)

  type Versions = map<string, uint64>

  datatype GuardState = GuardState(order: seq<string>, versions: Versions)

  function Lookup(versions: Versions, key: string): uint64 {
    if key in versions then versions[key] else 0
  }

  datatype Relation = Older | Equal | Newer

  function Compare(current: uint64, incoming: uint64): Relation {
    if incoming < current then Older
    else if incoming > current then Newer
    else Equal
  }

  function EvaluateSpec(capacity: nat, st: GuardState, meta: EventMeta): (GuardState, Decision) {
    match Keys(meta)
    case Err(e) => (st, Decision(Rejected, "", "", 0, 0, Some(e)))
    case Ok((dedupKey, resourceKey)) =>
      var current := Lookup(st.versions, resourceKey);
      var next := st.(order := Record(capacity, st.order, dedupKey));
      if dedupKey in st.order then (next, Decision(Duplicate, dedupKey, resourceKey, current, current, None))
      else
        match Compare(current, meta.resourceVersion)
        case Older => (next, Decision(Rejected, dedupKey, resourceKey, current, current, Some(VersionRollback)))
        case Equal => (next, Decision(Duplicate, dedupKey, resourceKey, current, current, None))
        case Newer =>
          (next.(versions := next.versions[resourceKey := meta.resourceVersion]),
           Decision(Accepted, dedupKey, resourceKey, meta.resourceVersion, meta.resourceVersion, None))
  }

  /** Which events are well formed, and what is wrong with the others. */
  lemma KeysExactly(meta: EventMeta)
    ensures Keys(meta).Ok?
       <==> && !Blank(meta.sessionID) && !Blank(meta.eventID) && !Blank(meta.resourceType) && !Blank(meta.resourceID)
            && meta.sessionEpoch > 0 && meta.resourceVersion > 0
    ensures Keys(meta).Err? ==>
              match Keys(meta).error
              case MissingRequiredField =>
                Blank(meta.sessionID) || Blank(meta.resourceType) || Blank(meta.resourceID)
              case InvalidSessionEpoch => meta.sessionEpoch == 0
              case InvalidEventID => Blank(meta.eventID)
              case InvalidResourceVersion => meta.resourceVersion == 0
              case VersionRollback => false
  {
  }

  /** The session epoch must not be zero, but it is in neither key: events of different epochs can be one event. */
  lemma EpochIsIgnored(capacity: nat, st: GuardState, meta: EventMeta, epoch: uint64)
    requires Keys(meta).Ok? && epoch > 0
    ensures Keys(meta.(sessionEpoch := epoch)) == Keys(meta)
    ensures EvaluateSpec(capacity, st, meta.(sessionEpoch := epoch)) == EvaluateSpec(capacity, st, meta)
  {
  }

  predicate Blank(s: string) {
    Trim(s) == ""
  }

  /**
   The three answers. `held` is the version of the resource before the call, `seen` says that the window knows the
   event. A known event, or one with the version held, is a duplicate; of the others the older ones are rejected as
   rollbacks and the newer ones accepted, and nothing but an acceptance changes a version. Both versions reported are
   the one that is held afterwards. A malformed event is rejected for what is wrong with it, and changes nothing.
   */
  lemma EvaluateOutcome(capacity: nat, st: GuardState, meta: EventMeta)
    ensures var (next, decision) := EvaluateSpec(capacity, st, meta);
            match Keys(meta)
            case Err(error) =>
              next == st && decision.status == Rejected && decision.error == Some(error)
            case Ok((dedupKey, key)) =>
              var held, seen := Lookup(st.versions, key), dedupKey in st.order;
              && (decision.status == Rejected <==> !seen && meta.resourceVersion < held)
              && (decision.status == Duplicate <==> seen || meta.resourceVersion == held)
              && (decision.status == Accepted <==> !seen && meta.resourceVersion > held)
              && decision.error == (if decision.status == Rejected then Some(VersionRollback) else None)
              && (decision.dedupKey, decision.resourceKey) == (dedupKey, key)
              && decision.acceptedVersion == decision.currentVersion == Lookup(next.versions, key)
              && (decision.status == Accepted ==> Lookup(next.versions, key) == meta.resourceVersion)
              && (forall other :: other != key || decision.status != Accepted ==>
                    Lookup(next.versions, other) == Lookup(st.versions, other))
              && (capacity > 0 ==> dedupKey in next.order)
  {
    if Keys(meta).Ok? {
      InRecord(capacity, st.order, Keys(meta).value.0);
    }
  }

  lemma InRecord(capacity: nat, order: seq<string>, key: string)
    ensures capacity > 0 ==> key in Record(capacity, order, key)
  {
    if key !in order && |order + [key]| > capacity > 0 {
      var next := (order + [key])[1..];
      assert next[|next| - 1] == key;
    }
  }

  /** Calls on one guard. */
  datatype Op =
    | Evaluate(meta: EventMeta)
    | SetVersion(resourceType: string, resourceID: string, version: uint64)
    | ReplaceAllVersions(snapshot: Versions)

  function SetVersionSpec(versions: Versions, resourceType: string, resourceID: string, version: uint64): Versions {
    if version == 0 || Trim(resourceType) == "" || Trim(resourceID) == "" then versions
    else versions[JoinKey(Trim(resourceType), Trim(resourceID)) := version]
  }

  function Usable(snapshot: Versions): Versions {
    map key | key in snapshot && Trim(key) != "" && snapshot[key] != 0 :: snapshot[key]
  }

  function Step(capacity: nat, st: GuardState, op: Op): GuardState {
    match op
    case Evaluate(meta) => EvaluateSpec(capacity, st, meta).0
    case SetVersion(resourceType, resourceID, version) =>
      st.(versions := SetVersionSpec(st.versions, resourceType, resourceID, version))
    case ReplaceAllVersions(snapshot) => st.(versions := Usable(snapshot))
  }

  function After(capacity: nat, start: GuardState, ops: seq<Op>, k: nat): GuardState
    requires k <= |ops|
  {
    if k == 0 then start else Step(capacity, After(capacity, start, ops, k - 1), ops[k - 1])
  }

  /** The version of `key` after `k` calls. */
  function VersionAt(capacity: nat, start: GuardState, ops: seq<Op>, k: nat, key: string): uint64
    requires k <= |ops|
  {
    Lookup(After(capacity, start, ops, k).versions, key)
  }

  /** Call `k` is an event that is accepted and concerns `key`. */
  predicate AcceptedAt(capacity: nat, start: GuardState, ops: seq<Op>, k: nat, key: string)
    requires k < |ops|
  {
    && ops[k].Evaluate?
    && var decision := EvaluateSpec(capacity, After(capacity, start, ops, k), ops[k].meta).1;
       decision.status == Accepted && decision.resourceKey == key
  }

  /** Call `k` lowers the version of `key`: only a reconciliation can do that. */
  predicate LoweredAt(capacity: nat, start: GuardState, ops: seq<Op>, k: nat, key: string)
    requires k < |ops|
  {
    VersionAt(capacity, start, ops, k + 1, key) < VersionAt(capacity, start, ops, k, key)
  }

  lemma EventsNeverLower(capacity: nat, st: GuardState, meta: EventMeta, key: string)
    ensures Lookup(st.versions, key) <= Lookup(EvaluateSpec(capacity, st, meta).0.versions, key)
    ensures var decision := EvaluateSpec(capacity, st, meta).1;
            decision.status == Accepted && decision.resourceKey == key ==>
              Lookup(st.versions, key) < meta.resourceVersion
              && Lookup(EvaluateSpec(capacity, st, meta).0.versions, key) == meta.resourceVersion
  {
  }

  lemma StepGrows(capacity: nat, start: GuardState, ops: seq<Op>, k: nat, key: string)
    requires k < |ops| && (ops[k].Evaluate? || !LoweredAt(capacity, start, ops, k, key))
    ensures VersionAt(capacity, start, ops, k, key) <= VersionAt(capacity, start, ops, k + 1, key)
  {
    if ops[k].Evaluate? {
      EventsNeverLower(capacity, After(capacity, start, ops, k), ops[k].meta, key);
    }
  }

  /** A version goes back only if a call lowers it, and events do not. */
  lemma {:induction false} VersionsGrow(capacity: nat, start: GuardState, ops: seq<Op>, j: nat, k: nat, key: string)
    requires j <= k <= |ops|
    requires forall i :: j <= i < k && !ops[i].Evaluate? ==> !LoweredAt(capacity, start, ops, i, key)
    ensures VersionAt(capacity, start, ops, j, key) <= VersionAt(capacity, start, ops, k, key)
    decreases k - j
  {
    if j < k {
      VersionsGrow(capacity, start, ops, j, k - 1, key);
      StepGrows(capacity, start, ops, k - 1, key);
    }
  }

  /**
   Over any run, with any window capacity and any start, the versions accepted for one resource strictly increase unless
   a reconciliation between them lowers the version; in particular no event is accepted twice, even if the window has
   forgotten it.
   */
  lemma AcceptedVersionsIncrease(capacity: nat, start: GuardState, ops: seq<Op>, j: nat, k: nat, key: string)
    requires j < k < |ops|
    requires AcceptedAt(capacity, start, ops, j, key) && AcceptedAt(capacity, start, ops, k, key)
    requires forall i :: j < i < k && !ops[i].Evaluate? ==> !LoweredAt(capacity, start, ops, i, key)
    ensures ops[j].meta.resourceVersion < ops[k].meta.resourceVersion
  {
    EventsNeverLower(capacity, After(capacity, start, ops, j), ops[j].meta, key);
    EventsNeverLower(capacity, After(capacity, start, ops, k), ops[k].meta, key);
    VersionsGrow(capacity, start, ops, j + 1, k, key);
  }

  /** An event raises the version to its own if it is accepted, and keeps it otherwise. */
  lemma EventStep(capacity: nat, start: GuardState, ops: seq<Op>, k: nat, key: string)
    requires k < |ops| && ops[k].Evaluate?
    ensures if AcceptedAt(capacity, start, ops, k, key)
            then VersionAt(capacity, start, ops, k, key) < VersionAt(capacity, start, ops, k + 1, key)
                 && VersionAt(capacity, start, ops, k + 1, key) == ops[k].meta.resourceVersion
            else VersionAt(capacity, start, ops, k + 1, key) == VersionAt(capacity, start, ops, k, key)
  {
    EvaluateOutcome(capacity, After(capacity, start, ops, k), ops[k].meta);
  }

  /**
   Over calls that are all events, the version held is the largest of the one at first and those accepted since: it is
   not below any of them, and it is one of them.
   */
  lemma HeldIsLargest(capacity: nat, start: GuardState, ops: seq<Op>, j: nat, k: nat, key: string) returns (i: nat)
    requires j <= k <= |ops| && forall i :: j <= i < k ==> ops[i].Evaluate?
    ensures VersionAt(capacity, start, ops, j, key) <= VersionAt(capacity, start, ops, k, key)
    ensures forall m :: j <= m < k && AcceptedAt(capacity, start, ops, m, key) ==>
              ops[m].meta.resourceVersion <= VersionAt(capacity, start, ops, k, key)
    ensures HeldFrom(capacity, start, ops, j, i, k, key)
  {
    VersionsGrow(capacity, start, ops, j, k, key);
    forall m | j <= m < k && AcceptedAt(capacity, start, ops, m, key)
      ensures ops[m].meta.resourceVersion <= VersionAt(capacity, start, ops, k, key)
    {
      EventStep(capacity, start, ops, m, key);
      VersionsGrow(capacity, start, ops, m + 1, k, key);
    }
    i := HeldWasAccepted(capacity, start, ops, j, k, key);
  }

  /** The version held before call `k` is still the one before call `j`, or call `i` has set it. */
  predicate HeldFrom(capacity: nat, start: GuardState, ops: seq<Op>, j: nat, i: nat, k: nat, key: string)
    requires j <= k <= |ops|
  {
    || VersionAt(capacity, start, ops, k, key) == VersionAt(capacity, start, ops, j, key)
    || (j <= i < k && AcceptedAt(capacity, start, ops, i, key)
        && ops[i].meta.resourceVersion == VersionAt(capacity, start, ops, k, key))
  }

  lemma HeldFromNext(capacity: nat, start: GuardState, ops: seq<Op>, j: nat, i: nat, k: nat, key: string)
    requires j <= k < |ops| && ops[k].Evaluate? && HeldFrom(capacity, start, ops, j, i, k, key)
    ensures HeldFrom(capacity, start, ops, j, if AcceptedAt(capacity, start, ops, k, key) then k else i, k + 1, key)
  {
    EventStep(capacity, start, ops, k, key);
  }

  lemma HeldWasAccepted(capacity: nat, start: GuardState, ops: seq<Op>, j: nat, k: nat, key: string) returns (i: nat)
    requires j <= k <= |ops| && forall i :: j <= i < k ==> ops[i].Evaluate?
    ensures HeldFrom(capacity, start, ops, j, i, k, key)
  {
    i := k;
    var n := j;
    while n < k
      invariant j <= n <= k && HeldFrom(capacity, start, ops, j, i, n, key)
    {
      HeldFromNext(capacity, start, ops, j, i, n, key);
      i := if AcceptedAt(capacity, start, ops, n, key) then n else i;
      n := n + 1;
    }
  }

  // ---------------------------------------------------------------------------------------------
  // Accepting an event again
  // ---------------------------------------------------------------------------------------------

  /** Call `k` puts a key into the window: it is an event whose key the window does not hold. */
  predicate InsertsAt(capacity: nat, start: GuardState, ops: seq<Op>, k: nat)
    requires k < |ops|
  {
    && ops[k].Evaluate? && Keys(ops[k].meta).Ok?
    && Keys(ops[k].meta).value.0 !in After(capacity, start, ops, k).order
  }

  /** The number of keys that calls `j` to `k - 1` put into the window. */
  function InsertionsBetween(capacity: nat, start: GuardState, ops: seq<Op>, j: nat, k: nat): nat
    requires j <= k <= |ops|
  {
    if j == k then 0
    else InsertionsBetween(capacity, start, ops, j, k - 1) + if InsertsAt(capacity, start, ops, k - 1) then 1 else 0
  }

  predicate WellFormed(capacity: nat, order: seq<string>) {
    0 < capacity && |order| <= capacity && NoDuplicates(order)
  }

  /** A step leaves the window alone or records a new key. */
  lemma WindowStep(capacity: nat, start: GuardState, ops: seq<Op>, k: nat)
    requires k < |ops|
    ensures After(capacity, start, ops, k + 1).order
         == if InsertsAt(capacity, start, ops, k)
            then Record(capacity, After(capacity, start, ops, k).order, Keys(ops[k].meta).value.0)
            else After(capacity, start, ops, k).order
  {
  }

  lemma {:induction false} StaysWellFormed(capacity: nat, start: GuardState, ops: seq<Op>, k: nat)
    requires k <= |ops| && WellFormed(capacity, start.order)
    ensures WellFormed(capacity, After(capacity, start, ops, k).order)
  {
    if k > 0 {
      StaysWellFormed(capacity, start, ops, k - 1);
      WindowStep(capacity, start, ops, k - 1);
      if InsertsAt(capacity, start, ops, k - 1) {
        RecordKeepsDistinct(capacity, After(capacity, start, ops, k - 1).order, Keys(ops[k - 1].meta).value.0);
      }
    }
  }

  /** `key` is the `age`-th youngest of the window, counted from 0, or it has been evicted. */
  ghost predicate HasAge(capacity: nat, order: seq<string>, key: string, age: nat) {
    if age < capacity then age < |order| && order[|order| - 1 - age] == key else key !in order
  }

  lemma AgesByOne(capacity: nat, order: seq<string>, key: string, age: nat, other: string)
    requires WellFormed(capacity, order) && HasAge(capacity, order, key, age) && other !in order && other != key
    ensures HasAge(capacity, Record(capacity, order, other), key, age + 1)
  {
    var next := Record(capacity, order, other);
    if age + 1 == capacity {
      assert order[0] == key && next == order[1..] + [other];
    } else if age + 1 < capacity {
      assert next[|next| - 2 - age] == order[|order| - 1 - age];
    }
  }

  lemma YoungestHasAge(capacity: nat, order: seq<string>, key: string)
    requires WellFormed(capacity, order) && key !in order
    ensures HasAge(capacity, Record(capacity, order, key), key, 0)
  {
  }

  /** The calls between `j` and `k` do not put `dedupKey` into the window. */
  ghost predicate NotRenewed(capacity: nat, start: GuardState, ops: seq<Op>, j: nat, k: nat, dedupKey: string)
    requires k <= |ops|
  {
    forall i :: j < i < k && HasDedupKey(ops[i], dedupKey) ==> !InsertsAt(capacity, start, ops, i)
  }

  lemma AgeStep(capacity: nat, start: GuardState, ops: seq<Op>, i: nat, dedupKey: string, age: nat)
    requires i < |ops| && WellFormed(capacity, After(capacity, start, ops, i).order)
    requires HasAge(capacity, After(capacity, start, ops, i).order, dedupKey, age)
    requires HasDedupKey(ops[i], dedupKey) ==> !InsertsAt(capacity, start, ops, i)
    ensures HasAge(capacity, After(capacity, start, ops, i + 1).order, dedupKey,
                   age + if InsertsAt(capacity, start, ops, i) then 1 else 0)
  {
    WindowStep(capacity, start, ops, i);
    if InsertsAt(capacity, start, ops, i) {
      AgesByOne(capacity, After(capacity, start, ops, i).order, dedupKey, age, Keys(ops[i].meta).value.0);
    }
  }

  /** A key ages by one with every insertion after its own. */
  lemma {:induction false} AgeCounts(capacity: nat, start: GuardState, ops: seq<Op>, j: nat, k: nat, dedupKey: string)
    requires j < k <= |ops| && WellFormed(capacity, start.order)
    requires HasDedupKey(ops[j], dedupKey) && InsertsAt(capacity, start, ops, j)
    requires NotRenewed(capacity, start, ops, j, k, dedupKey)
    ensures HasAge(capacity, After(capacity, start, ops, k).order, dedupKey,
                   InsertionsBetween(capacity, start, ops, j + 1, k))
  {
    StaysWellFormed(capacity, start, ops, k - 1);
    if k == j + 1 {
      WindowStep(capacity, start, ops, j);
      YoungestHasAge(capacity, After(capacity, start, ops, j).order, dedupKey);
    } else {
      AgeCounts(capacity, start, ops, j, k - 1, dedupKey);
      AgeStep(capacity, start, ops, k - 1, dedupKey, InsertionsBetween(capacity, start, ops, j + 1, k - 1));
    }
  }

  /** Which calls put `dedupKey` into the window. */
  function Inserting(capacity: nat, start: GuardState, ops: seq<Op>, dedupKey: string): nat -> bool {
    (m: nat) => m < |ops| && HasDedupKey(ops[m], dedupKey) && InsertsAt(capacity, start, ops, m)
  }

  /** Of the calls `i` to `k - 1` the last that put `dedupKey` into the window, as call `i` did. */
  function LastInsertion(capacity: nat, start: GuardState, ops: seq<Op>, i: nat, k: nat, dedupKey: string): nat
    requires i < k && Inserting(capacity, start, ops, dedupKey)(i)
  {
    Last(Inserting(capacity, start, ops, dedupKey), i, k)
  }

  /** `capacity` keys have been put into the window since it was last given `dedupKey`. */
  predicate Forgotten(capacity: nat, start: GuardState, ops: seq<Op>, i: nat, k: nat, dedupKey: string)
    requires i < k <= |ops| && Inserting(capacity, start, ops, dedupKey)(i)
  {
    InsertionsBetween(capacity, start, ops, LastInsertion(capacity, start, ops, i, k, dedupKey) + 1, k) >= capacity
  }

  lemma LastIsLast(capacity: nat, start: GuardState, ops: seq<Op>, i: nat, k: nat, dedupKey: string)
    requires i < k <= |ops| && Inserting(capacity, start, ops, dedupKey)(i)
    ensures var j := LastInsertion(capacity, start, ops, i, k, dedupKey);
            && i <= j < k && Inserting(capacity, start, ops, dedupKey)(j)
            && NotRenewed(capacity, start, ops, j, k, dedupKey)
  {
    var j := LastInsertion(capacity, start, ops, i, k, dedupKey);
    forall m | j < m < k && HasDedupKey(ops[m], dedupKey)
      ensures !InsertsAt(capacity, start, ops, m)
    {
      assert !Inserting(capacity, start, ops, dedupKey)(m);
    }
  }

  /**
   A key that was ever put into the window has left it exactly if, since it was last put there, as many other keys were
   as the window holds.
   */
  lemma ForgottenExactly(capacity: nat, start: GuardState, ops: seq<Op>, i: nat, k: nat, dedupKey: string)
    requires i < k <= |ops| && WellFormed(capacity, start.order)
    requires Inserting(capacity, start, ops, dedupKey)(i)
    ensures dedupKey !in After(capacity, start, ops, k).order <==> Forgotten(capacity, start, ops, i, k, dedupKey)
  {
    LastIsLast(capacity, start, ops, i, k, dedupKey);
    ForgottenSince(capacity, start, ops, LastInsertion(capacity, start, ops, i, k, dedupKey), k, dedupKey);
  }

  lemma ForgottenSince(capacity: nat, start: GuardState, ops: seq<Op>, j: nat, k: nat, dedupKey: string)
    requires j < k <= |ops| && WellFormed(capacity, start.order)
    requires Inserting(capacity, start, ops, dedupKey)(j) && NotRenewed(capacity, start, ops, j, k, dedupKey)
    ensures dedupKey !in After(capacity, start, ops, k).order
            <==> InsertionsBetween(capacity, start, ops, j + 1, k) >= capacity
  {
    AgeCounts(capacity, start, ops, j, k, dedupKey);
  }

  /** A key of that age at the start is older by the insertions since. */
  ghost predicate Aged(capacity: nat, start: GuardState, ops: seq<Op>, k: nat, dedupKey: string, age: nat)
    requires k <= |ops|
  {
    HasAge(capacity, After(capacity, start, ops, k).order, dedupKey,
           age + InsertionsBetween(capacity, start, ops, 0, k))
  }

  lemma AgedMore(capacity: nat, start: GuardState, ops: seq<Op>, k: nat, dedupKey: string, age: nat)
    requires k < |ops| && WellFormed(capacity, start.order) && Aged(capacity, start, ops, k, dedupKey, age)
    requires !Inserting(capacity, start, ops, dedupKey)(k)
    ensures Aged(capacity, start, ops, k + 1, dedupKey, age)
  {
    StaysWellFormed(capacity, start, ops, k);
    AgeStep(capacity, start, ops, k, dedupKey, age + InsertionsBetween(capacity, start, ops, 0, k));
  }

  lemma AgesFromStart(capacity: nat, start: GuardState, ops: seq<Op>, k: nat, dedupKey: string, age: nat)
    requires k <= |ops| && WellFormed(capacity, start.order) && HasAge(capacity, start.order, dedupKey, age)
    requires forall i: nat :: i < k ==> !Inserting(capacity, start, ops, dedupKey)(i)
    ensures Aged(capacity, start, ops, k, dedupKey, age)
  {
    var i := 0;
    while i < k
      invariant i <= k && Aged(capacity, start, ops, i, dedupKey, age)
    {
      AgedMore(capacity, start, ops, i, dedupKey, age);
      i := i + 1;
    }
  }

  /** How many keys of the window are younger than `key`; if it is not there, as many as the window holds. */
  function Age(capacity: nat, order: seq<string>, key: string): (age: nat)
    requires |order| <= capacity
    ensures HasAge(capacity, order, key, age)
  {
    if key !in order then capacity
    else if order[|order| - 1] == key then 0
    else
      var front := order[..|order| - 1];
      assert order == front + [order[|order| - 1]];
      1 + Age(capacity - 1, front, key)
  }

  /**
   The window knows an event before call `k`: a call put its key there, and fewer than `capacity` keys came after it; or
   it was there at the start, and together with the keys younger than it fewer came.
   */
  ghost predicate Known(capacity: nat, start: GuardState, ops: seq<Op>, k: nat, dedupKey: string)
    requires k <= |ops| && |start.order| <= capacity
  {
    || (exists i: nat :: i < k && Inserting(capacity, start, ops, dedupKey)(i)
                         && !Forgotten(capacity, start, ops, i, k, dedupKey))
    || ((forall i: nat :: i < k ==> !Inserting(capacity, start, ops, dedupKey)(i))
        && Age(capacity, start.order, dedupKey) + InsertionsBetween(capacity, start, ops, 0, k) < capacity)
  }

  lemma KnownExactly(capacity: nat, start: GuardState, ops: seq<Op>, k: nat, dedupKey: string)
    requires k <= |ops| && WellFormed(capacity, start.order)
    ensures dedupKey in After(capacity, start, ops, k).order <==> Known(capacity, start, ops, k, dedupKey)
  {
    forall i: nat | i < k && Inserting(capacity, start, ops, dedupKey)(i)
      ensures dedupKey !in After(capacity, start, ops, k).order <==> Forgotten(capacity, start, ops, i, k, dedupKey)
    {
      ForgottenExactly(capacity, start, ops, i, k, dedupKey);
    }
    if forall i: nat :: i < k ==> !Inserting(capacity, start, ops, dedupKey)(i) {
      AgesFromStart(capacity, start, ops, k, dedupKey, Age(capacity, start.order, dedupKey));
    }
  }

  /**
   The answers over any run: what a well-formed event is told depends on whether the window still knows it and on the
   version held, and on nothing else.
   */
  lemma AnswersExactly(capacity: nat, start: GuardState, ops: seq<Op>, k: nat, dedupKey: string, key: string)
    requires k < |ops| && WellFormed(capacity, start.order)
    requires ops[k].Evaluate? && Keys(ops[k].meta) == Ok((dedupKey, key))
    ensures var status := EvaluateSpec(capacity, After(capacity, start, ops, k), ops[k].meta).1.status;
            var known, held := Known(capacity, start, ops, k, dedupKey), VersionAt(capacity, start, ops, k, key);
            && (status == Duplicate <==> known || ops[k].meta.resourceVersion == held)
            && (status == Rejected <==> !known && ops[k].meta.resourceVersion < held)
            && (status == Accepted <==> !known && ops[k].meta.resourceVersion > held)
  {
    KnownExactly(capacity, start, ops, k, dedupKey);
    EvaluateOutcome(capacity, After(capacity, start, ops, k), ops[k].meta);
  }

  /**
   An event accepted at call `i` that comes again at call `k` is accepted again exactly if its key has been forgotten
   and the version of its resource is now below its own; which takes a reconciliation in between that lowered the
   version. It does not matter what became of the event when it came between the two calls.
   */
  lemma AcceptedAgainExactly(capacity: nat, start: GuardState, ops: seq<Op>, i: nat, k: nat, dedupKey: string,
                             key: string)
    requires i < k < |ops| && WellFormed(capacity, start.order) && ops[k] == ops[i]
    requires AcceptedAt(capacity, start, ops, i, key) && HasDedupKey(ops[i], dedupKey)
    ensures AcceptedAt(capacity, start, ops, k, key)
            <==> && Forgotten(capacity, start, ops, i, k, dedupKey)
                 && VersionAt(capacity, start, ops, k, key) < ops[k].meta.resourceVersion
    ensures AcceptedAt(capacity, start, ops, k, key) ==>
              exists m :: i < m < k && !ops[m].Evaluate? && LoweredAt(capacity, start, ops, m, key)
  {
    ForgottenExactly(capacity, start, ops, i, k, dedupKey);
    if AcceptedAt(capacity, start, ops, k, key)
       && forall m :: i < m < k && !ops[m].Evaluate? ==> !LoweredAt(capacity, start, ops, m, key) {
      AcceptedVersionsIncrease(capacity, start, ops, i, k, key);
      assert false;
    }
  }

  lemma AcceptedIfForgotten(capacity: nat, start: GuardState, ops: seq<Op>, k: nat, key: string)
    requires k < |ops| && ops[k].Evaluate? && Keys(ops[k].meta).Ok? && Keys(ops[k].meta).value.1 == key
    ensures Keys(ops[k].meta).value.0 !in After(capacity, start, ops, k).order
            && VersionAt(capacity, start, ops, k, key) < ops[k].meta.resourceVersion
            ==> AcceptedAt(capacity, start, ops, k, key)
  {
  }

  lemma AcceptedInserts(capacity: nat, start: GuardState, ops: seq<Op>, i: nat, dedupKey: string, key: string)
    requires i < |ops| && AcceptedAt(capacity, start, ops, i, key) && HasDedupKey(ops[i], dedupKey)
    ensures Inserting(capacity, start, ops, dedupKey)(i)
  {
  }

  lemma AcceptedAgain(capacity: nat, start: GuardState, ops: seq<Op>, meta: EventMeta, k: nat)
    requires 0 < k < |ops| && WellFormed(capacity, start.order)
    requires Keys(meta).Ok? && ops[0] == ops[k] == Evaluate(meta)
    ensures && AcceptedAt(capacity, start, ops, 0, Keys(meta).value.1)
            && NotRenewed(capacity, start, ops, 0, k, Keys(meta).value.0)
            && InsertionsBetween(capacity, start, ops, 1, k) >= capacity
            && VersionAt(capacity, start, ops, k, Keys(meta).value.1) < meta.resourceVersion
            ==> AcceptedAt(capacity, start, ops, k, Keys(meta).value.1)
  {
    if AcceptedAt(capacity, start, ops, 0, Keys(meta).value.1)
       && NotRenewed(capacity, start, ops, 0, k, Keys(meta).value.0) {
      AcceptedInserts(capacity, start, ops, 0, Keys(meta).value.0, Keys(meta).value.1);
      ForgottenSince(capacity, start, ops, 0, k, Keys(meta).value.0);
      AcceptedIfForgotten(capacity, start, ops, k, Keys(meta).value.1);
    }
  }

  /** The version that a reconciliation leaves the resource of an event with: 0 if a snapshot omits it. */
  function Reconciled(versions: Versions, op: Op, key: string): uint64
    requires !op.Evaluate?
  {
    match op
    case SetVersion(resourceType, resourceID, version) =>
      if Trim(resourceType) != "" && Trim(resourceID) != "" && JoinKey(Trim(resourceType), Trim(resourceID)) == key
         && version != 0 then version
      else Lookup(versions, key)
    case ReplaceAllVersions(snapshot) =>
      if Trim(key) != "" then Lookup(snapshot, key) else 0
  }

  /** What a reconciliation does to every version; it does not touch the window. */
  lemma ReconciliationSets(capacity: nat, st: GuardState, op: Op, key: string)
    requires !op.Evaluate?
    ensures Lookup(Step(capacity, st, op).versions, key) == Reconciled(st.versions, op, key)
    ensures Step(capacity, st, op).order == st.order
  {
  }

  /**
   Reconciling to a lower version reopens the resource, whatever had been accepted before: an event unknown to the
   window is accepted afterwards exactly if it is newer than what the reconciliation left, and a snapshot that omits the
   resource leaves 0.
   */
  lemma ReconciliationReopens(capacity: nat, st: GuardState, meta: EventMeta, op: Op)
    requires Keys(meta).Ok? && Keys(meta).value.0 !in st.order && !op.Evaluate?
    ensures EvaluateSpec(capacity, Step(capacity, st, op), meta).1.status == Accepted
            <==> meta.resourceVersion > Reconciled(st.versions, op, Keys(meta).value.1)
  {
  }

  /** A reconciliation that leaves the resource of an event with an older version than the event's, or with none. */
  predicate Reopens(op: Op, meta: EventMeta)
    requires Keys(meta).Ok?
  {
    match op
    case Evaluate(_) => false
    case SetVersion(resourceType, resourceID, version) =>
      && Trim(resourceType) == Trim(meta.resourceType) && Trim(resourceID) == Trim(meta.resourceID)
      && 0 < version < meta.resourceVersion
    case ReplaceAllVersions(snapshot) =>
      Lookup(snapshot, Keys(meta).value.1) < meta.resourceVersion
  }

  /** An event of another session, told apart by the length of its id. */
  function Other(n: nat): Op
    requires n > 0
  {
    Evaluate(EventMeta("s", 1, seq(n, _ => 'e'), "r", "x", 1))
  }

  lemma OtherKey(n: nat)
    requires n > 0
    ensures KeyHasLength(Other(n), n + 2)
  {
    assert Trimmed(seq(n, _ => 'e'));
  }

  predicate KeyHasLength(op: Op, n: nat) {
    op.Evaluate? && Keys(op.meta).Ok? && |Keys(op.meta).value.0| == n
  }

  /** Two deliveries of one event, a reconciliation before the second, and between them `capacity` other events. */
  ghost predicate IsReplay(capacity: nat, meta: EventMeta, reconciliation: Op, base: nat, ops: seq<Op>) {
    && |ops| == capacity + 3 && ops[0] == ops[capacity + 2] == Evaluate(meta) && ops[capacity + 1] == reconciliation
    && forall i :: 0 < i <= capacity ==> KeyHasLength(ops[i], base + i)
  }

  function Replay(capacity: nat, meta: EventMeta, reconciliation: Op, base: nat): seq<Op> {
    [Evaluate(meta)] + seq(capacity, i requires 0 <= i => Other(base + i + 1)) + [reconciliation, Evaluate(meta)]
  }

  lemma ReplayIsReplay(capacity: nat, meta: EventMeta, reconciliation: Op, base: nat)
    ensures IsReplay(capacity, meta, reconciliation, base + 2, Replay(capacity, meta, reconciliation, base))
  {
    var ops := Replay(capacity, meta, reconciliation, base);
    forall i | 0 < i <= capacity
      ensures KeyHasLength(ops[i], base + 2 + i)
    {
      assert ops[i] == Other(base + i);
      OtherKey(base + i);
    }
  }

  /** All keys of the window, and `key`, are shorter than the keys of the other events. */
  ghost predicate Shorter(order: seq<string>, key: string, base: nat) {
    |key| < base && forall k :: k in order ==> |k| < base
  }

  function Longest(order: seq<string>): (n: nat)
    ensures forall k :: k in order ==> |k| <= n
  {
    if order == [] then 0
    else
      var rest := Longest(order[1..]);
      if |order[0]| > rest then |order[0]| else rest
  }

  lemma OtherIsNew(capacity: nat, start: GuardState, meta: EventMeta, reconciliation: Op, base: nat, ops: seq<Op>,
                   i: nat, key: string)
    requires 0 < i <= capacity && Keys(meta).Ok? && IsReplay(capacity, meta, reconciliation, base, ops)
    requires Shorter(start.order, Keys(meta).value.0, base) && HasDedupKey(ops[i], key)
    ensures key !in After(capacity, start, ops, i).order && key != Keys(meta).value.0
  {
    assert KeyHasLength(ops[i], base + i);
    forall j | 0 <= j < i
      ensures !HasDedupKey(ops[j], key)
    {
      if j > 0 {
        assert KeyHasLength(ops[j], base + j);
      }
    }
    if key in After(capacity, start, ops, i).order {
      WindowHolds(capacity, start, ops, i, key);
      assert false;
    }
  }

  lemma OtherInserts(capacity: nat, start: GuardState, meta: EventMeta, reconciliation: Op, base: nat, ops: seq<Op>,
                     i: nat)
    requires 0 < i <= capacity && Keys(meta).Ok? && IsReplay(capacity, meta, reconciliation, base, ops)
    requires Shorter(start.order, Keys(meta).value.0, base)
    ensures InsertsAt(capacity, start, ops, i) && !HasDedupKey(ops[i], Keys(meta).value.0)
  {
    assert KeyHasLength(ops[i], base + i);
    OtherIsNew(capacity, start, meta, reconciliation, base, ops, i, Keys(ops[i].meta).value.0);
  }

  lemma {:induction false} AllInsert(capacity: nat, start: GuardState, ops: seq<Op>, j: nat, k: nat)
    requires j <= k <= |ops| && forall i: nat :: j <= i < k ==> InsertsAt(capacity, start, ops, i)
    ensures InsertionsBetween(capacity, start, ops, j, k) == k - j
    decreases k - j
  {
    if j < k {
      AllInsert(capacity, start, ops, j, k - 1);
    }
  }

  lemma ReplayForgets(capacity: nat, start: GuardState, meta: EventMeta, reconciliation: Op, base: nat, ops: seq<Op>)
    requires Keys(meta).Ok? && IsReplay(capacity, meta, reconciliation, base, ops) && !reconciliation.Evaluate?
    requires Shorter(start.order, Keys(meta).value.0, base)
    ensures InsertionsBetween(capacity, start, ops, 1, capacity + 2) >= capacity
    ensures NotRenewed(capacity, start, ops, 0, capacity + 2, Keys(meta).value.0)
  {
    forall i: nat | 1 <= i < capacity + 1
      ensures InsertsAt(capacity, start, ops, i) && !HasDedupKey(ops[i], Keys(meta).value.0)
    {
      OtherInserts(capacity, start, meta, reconciliation, base, ops, i);
    }
    AllInsert(capacity, start, ops, 1, capacity + 1);
  }

  /**
   So events are accepted twice: for every window capacity, every state and every event that the guard accepts there is
   a run, with any reconciliation that reopens the resource, in which the guard accepts the event again.
   */
  lemma AcceptedTwice(capacity: nat, start: GuardState, meta: EventMeta, reconciliation: Op) returns (ops: seq<Op>)
    requires WellFormed(capacity, start.order) && EvaluateSpec(capacity, start, meta).1.status == Accepted
    requires Reopens(reconciliation, meta)
    ensures |ops| == capacity + 3 && ops[0] == ops[capacity + 2] == Evaluate(meta)
    ensures ops[capacity + 1] == reconciliation && forall i :: 0 < i <= capacity ==> ops[i].Evaluate?
    ensures AcceptedAt(capacity, start, ops, 0, Keys(meta).value.1)
    ensures AcceptedAt(capacity, start, ops, capacity + 2, Keys(meta).value.1)
  {
    var (dedupKey, key) := Keys(meta).value;
    var base := Longest(start.order) + |dedupKey| + 1;
    ops := Replay(capacity, meta, reconciliation, base);
    ReplayIsReplay(capacity, meta, reconciliation, base);
    ReplayAccepts(capacity, start, meta, reconciliation, base + 2, ops);
    forall i | 0 < i <= capacity
      ensures ops[i].Evaluate?
    {
      assert KeyHasLength(ops[i], base + 2 + i);
    }
  }

  lemma ReplayAccepts(capacity: nat, start: GuardState, meta: EventMeta, reconciliation: Op, base: nat, ops: seq<Op>)
    requires WellFormed(capacity, start.order) && EvaluateSpec(capacity, start, meta).1.status == Accepted
    requires Reopens(reconciliation, meta) && IsReplay(capacity, meta, reconciliation, base, ops)
    requires Shorter(start.order, Keys(meta).value.0, base)
    ensures AcceptedAt(capacity, start, ops, 0, Keys(meta).value.1)
    ensures AcceptedAt(capacity, start, ops, capacity + 2, Keys(meta).value.1)
  {
    ReplayForgets(capacity, start, meta, reconciliation, base, ops);
    ReplayLowers(capacity, start, meta, reconciliation, base, ops);
    FirstAccepted(capacity, start, meta, ops);
    AcceptedAgain(capacity, start, ops, meta, capacity + 2);
  }

  lemma FirstAccepted(capacity: nat, start: GuardState, meta: EventMeta, ops: seq<Op>)
    requires ops != [] && ops[0] == Evaluate(meta) && EvaluateSpec(capacity, start, meta).1.status == Accepted
    ensures AcceptedAt(capacity, start, ops, 0, Keys(meta).value.1)
  {
  }

  lemma ReplayLowers(capacity: nat, start: GuardState, meta: EventMeta, reconciliation: Op, base: nat, ops: seq<Op>)
    requires Keys(meta).Ok? && Reopens(reconciliation, meta)
    requires IsReplay(capacity, meta, reconciliation, base, ops)
    ensures VersionAt(capacity, start, ops, capacity + 2, Keys(meta).value.1) < meta.resourceVersion
  {
    ReopensLowers(capacity, After(capacity, start, ops, capacity + 1), reconciliation, meta);
  }

  lemma ReopensLowers(capacity: nat, st: GuardState, op: Op, meta: EventMeta)
    requires Keys(meta).Ok? && Reopens(op, meta)
    ensures Lookup(Step(capacity, st, op).versions, Keys(meta).value.1) < meta.resourceVersion
  {
  }

  // ---------------------------------------------------------------------------------------------
  // Convergence
  // ---------------------------------------------------------------------------------------------

  predicate Concerns(op: Op, key: string) {
    op.Evaluate? && Keys(op.meta).Ok? && Keys(op.meta).value.1 == key
  }

  predicate HasDedupKey(op: Op, key: string) {
    op.Evaluate? && Keys(op.meta).Ok? && Keys(op.meta).value.0 == key
  }

  /** Only events, whose dedup keys are new to the window and pairwise different. */
  ghost predicate Fresh(start: GuardState, ops: multiset<Op>) {
    && (forall op :: op in ops ==> op.Evaluate?)
    && (forall op, key :: op in ops && HasDedupKey(op, key) ==> ops[op] == 1 && key !in start.order)
    && (forall op, op2, key :: op in ops && op2 in ops && HasDedupKey(op, key) && HasDedupKey(op2, key) ==> op == op2)
  }

  /** `result` holds for `key` the largest version among `start` and the events, and nothing if neither has any. */
  ghost predicate IsMaximum(start: Versions, ops: multiset<Op>, result: Versions, key: string) {
    && (key in result <==> key in start || exists op :: op in ops && Concerns(op, key))
    && (key in start ==> start[key] <= result[key])
    && (forall op :: op in ops && Concerns(op, key) ==> op.meta.resourceVersion <= result[key])
    && (key in result ==>
          || (key in start && result[key] == start[key])
          || exists op :: op in ops && Concerns(op, key) && op.meta.resourceVersion == result[key])
  }

  lemma WindowHolds(capacity: nat, start: GuardState, ops: seq<Op>, k: nat, key: string)
    requires k <= |ops| && key in After(capacity, start, ops, k).order
    ensures key in start.order || exists i :: 0 <= i < k && HasDedupKey(ops[i], key)
  {
    if k > 0 {
      var before := After(capacity, start, ops, k - 1);
      if key in before.order {
        WindowHolds(capacity, start, ops, k - 1, key);
      } else {
        assert HasDedupKey(ops[k - 1], key);
      }
    }
  }

  lemma CountedTwice(ops: seq<Op>, i: nat, j: nat)
    requires i < j < |ops| && ops[i] == ops[j]
    ensures multiset(ops)[ops[i]] >= 2
  {
    var a, b, c := ops[..i], ops[i + 1..j], ops[j + 1..];
    assert ops == a + [ops[i]] + b + [ops[j]] + c;
  }

  /** In a fresh run the window never answers, however small it is. */
  lemma NeverSeen(capacity: nat, start: GuardState, ops: seq<Op>, k: nat, key: string)
    requires k < |ops| && Fresh(start, multiset(ops)) && HasDedupKey(ops[k], key)
    ensures key !in After(capacity, start, ops, k).order
  {
    assert ops[k] in multiset(ops);
    if key in After(capacity, start, ops, k).order {
      WindowHolds(capacity, start, ops, k, key);
      var i :| 0 <= i < k && HasDedupKey(ops[i], key);
      assert ops[i] in multiset(ops);
      CountedTwice(ops, i, k);
      assert false;
    }
  }

  /** Of `key`'s version and the one of the event, if it concerns `key`, the larger is kept. */
  predicate Takes(before: Versions, op: Op, after: Versions, key: string) {
    if Concerns(op, key) then key in after && after[key] == Larger(Lookup(before, key), op.meta.resourceVersion)
    else (key in after <==> key in before) && (key in after ==> after[key] == before[key])
  }

  function Larger(x: uint64, y: uint64): uint64 {
    if x < y then y else x
  }

  /** Evaluating a fresh event takes the larger version. */
  lemma UnseenTakes(capacity: nat, st: GuardState, op: Op, next: GuardState, key: string)
    requires op.Evaluate? && (Keys(op.meta).Ok? ==> Keys(op.meta).value.0 !in st.order)
    requires next == Step(capacity, st, op)
    ensures Takes(st.versions, op, next.versions, key)
  {
  }

  lemma TakingKeepsMaximum(start: Versions, ops: multiset<Op>, before: Versions, op: Op, after: Versions, key: string)
    requires IsMaximum(start, ops, before, key) && Takes(before, op, after, key)
    ensures IsMaximum(start, ops + multiset{op}, after, key)
  {
    var ops' := ops + multiset{op};
    assert op in ops';
    assert forall o :: o in ops' <==> o in ops || o == op;
  }

  /** Whatever the steps are: if each takes the larger version, the run takes the largest. */
  lemma {:induction false} RunTakesMaximum(ops: seq<Op>, versions: nat -> Versions, k: nat, key: string)
    requires k <= |ops| && forall i: nat :: i < |ops| ==> Takes(versions(i), ops[i], versions(i + 1), key)
    ensures IsMaximum(versions(0), multiset(ops[..k]), versions(k), key)
  {
    if k == 0 {
      assert multiset(ops[..0]) == multiset{};
    } else {
      RunTakesMaximum(ops, versions, k - 1, key);
      PrefixGrows(ops, k);
      TakingKeepsMaximum(versions(0), multiset(ops[..k - 1]), versions(k - 1), ops[k - 1], versions(k), key);
    }
  }

  /** Call `k` is an event that the window does not answer. */
  predicate UnseenAt(capacity: nat, start: GuardState, ops: seq<Op>, k: nat)
    requires k < |ops|
  {
    && ops[k].Evaluate?
    && (Keys(ops[k].meta).Ok? ==> Keys(ops[k].meta).value.0 !in After(capacity, start, ops, k).order)
  }

  lemma FreshIsUnseen(capacity: nat, start: GuardState, ops: seq<Op>)
    requires Fresh(start, multiset(ops))
    ensures forall k: nat :: k < |ops| ==> UnseenAt(capacity, start, ops, k)
  {
    forall k: nat | k < |ops| ensures UnseenAt(capacity, start, ops, k) {
      assert ops[k] in multiset(ops);
      if Keys(ops[k].meta).Ok? {
        NeverSeen(capacity, start, ops, k, Keys(ops[k].meta).value.0);
      }
    }
  }

  lemma PrefixGrows(ops: seq<Op>, k: nat)
    requires 0 < k <= |ops|
    ensures multiset(ops[..k]) == multiset(ops[..k - 1]) + multiset{ops[k - 1]}
  {
    assert ops[..k] == ops[..k - 1] + [ops[k - 1]];
  }

  /** After `k` calls `key` has the largest version among the start and the events so far. */
  ghost predicate MaximumAfter(capacity: nat, start: GuardState, ops: seq<Op>, k: nat, key: string)
    requires k <= |ops|
  {
    IsMaximum(start.versions, multiset(ops[..k]), After(capacity, start, ops, k).versions, key)
  }

  /** The versions after each number of calls. */
  function Trajectory(capacity: nat, start: GuardState, ops: seq<Op>): nat -> Versions {
    (i: nat) => if i <= |ops| then After(capacity, start, ops, i).versions else map[]
  }

  lemma StepTakes(capacity: nat, start: GuardState, ops: seq<Op>, i: nat, key: string)
    requires i < |ops| && UnseenAt(capacity, start, ops, i)
    ensures Takes(Trajectory(capacity, start, ops)(i), ops[i], Trajectory(capacity, start, ops)(i + 1), key)
  {
    TrajectoryAt(capacity, start, ops, i);
    TrajectoryAt(capacity, start, ops, i + 1);
    UnseenTakes(capacity, After(capacity, start, ops, i), ops[i], After(capacity, start, ops, i + 1), key);
  }

  lemma TrajectoryAt(capacity: nat, start: GuardState, ops: seq<Op>, k: nat)
    requires k <= |ops|
    ensures Trajectory(capacity, start, ops)(0) == start.versions
    ensures Trajectory(capacity, start, ops)(k) == After(capacity, start, ops, k).versions
  {
  }

  lemma FreshRunTakesMaximum(capacity: nat, start: GuardState, ops: seq<Op>, k: nat, key: string)
    requires k <= |ops| && forall i: nat :: i < |ops| ==> UnseenAt(capacity, start, ops, i)
    ensures MaximumAfter(capacity, start, ops, k, key)
  {
    var versions := Trajectory(capacity, start, ops);
    forall i: nat | i < |ops|
      ensures Takes(versions(i), ops[i], versions(i + 1), key)
    {
      StepTakes(capacity, start, ops, i, key);
    }
    RunTakesMaximum(ops, versions, k, key);
    TrajectoryAt(capacity, start, ops, k);
  }

  lemma MaximumIsUnique(start: Versions, ops: multiset<Op>, a: Versions, b: Versions)
    requires forall key :: IsMaximum(start, ops, a, key) && IsMaximum(start, ops, b, key)
    ensures a == b
  {
    forall key ensures key in a <==> key in b ensures key in a ==> a[key] == b[key] {
      assert IsMaximum(start, ops, a, key) && IsMaximum(start, ops, b, key);
    }
  }

  /**
   Events with pairwise distinct, unseen dedup keys can arrive in any order, and through windows of any capacity: the
   versions end up the same, the largest one of each resource.
   */
  lemma Converges(capacity: nat, capacity2: nat, start: GuardState, ops: seq<Op>, ops2: seq<Op>)
    requires multiset(ops) == multiset(ops2) && Fresh(start, multiset(ops))
    ensures After(capacity, start, ops, |ops|).versions == After(capacity2, start, ops2, |ops2|).versions
    ensures forall key :: IsMaximum(start.versions, multiset(ops), After(capacity, start, ops, |ops|).versions, key)
  {
    FreshIsUnseen(capacity, start, ops);
    FreshIsUnseen(capacity2, start, ops2);
    assert ops[..|ops|] == ops && ops2[..|ops2|] == ops2;
    var a, b := After(capacity, start, ops, |ops|).versions, After(capacity2, start, ops2, |ops2|).versions;
    forall key
      ensures IsMaximum(start.versions, multiset(ops), a, key) && IsMaximum(start.versions, multiset(ops), b, key)
    {
      FreshRunTakesMaximum(capacity, start, ops, |ops|, key);
      FreshRunTakesMaximum(capacity2, start, ops2, |ops2|, key);
    }
    MaximumIsUnique(start.versions, multiset(ops), a, b);
  }

  class ResourceEventGuard {
    const replayWindow: ReplayWindow
    var resourceVersions: Versions

    ghost predicate Valid()
      reads this, replayWindow
    {
      replayWindow.Valid()
    }

    ghost function State(): GuardState
      reads this, replayWindow
    {
      GuardState(replayWindow.order, resourceVersions)
    }

    constructor (replayCapacity: int)
      ensures Valid() && fresh(replayWindow) && State() == GuardState([], map[])
      ensures replayWindow.capacity == if replayCapacity <= 0 then 1 else replayCapacity
    {
      replayWindow := new ReplayWindow(replayCapacity);
      resourceVersions := map[];
    }

    method Evaluate(meta: EventMeta) returns (decision: Decision)
      requires Valid()
      modifies this, replayWindow
      ensures Valid()
      ensures decision == EvaluateSpec(replayWindow.capacity, old(State()), meta).1
      ensures State() == EvaluateSpec(replayWindow.capacity, old(State()), meta).0
    {
      var keys := Keys(meta);
      if keys.Err? {
        return Decision(Rejected, "", "", 0, 0, Some(keys.error));
      }
      var (dedupKey, resourceKey) := keys.value;
      var seen := replayWindow.SeenOrAdd(dedupKey);
      var current := Lookup(resourceVersions, resourceKey);
      if seen {
        return Decision(Duplicate, dedupKey, resourceKey, current, current, None);
      }
      var relation := Compare(current, meta.resourceVersion);
      if relation == Older {
        return Decision(Rejected, dedupKey, resourceKey, current, current, Some(VersionRollback));
      }
      if relation == Equal {
        return Decision(Duplicate, dedupKey, resourceKey, current, current, None);
      }
      resourceVersions := resourceVersions[resourceKey := meta.resourceVersion];
      decision := Decision(Accepted, dedupKey, resourceKey, meta.resourceVersion, meta.resourceVersion, None);
    }

    method SetVersion(resourceType: string, resourceID: string, version: uint64)
      requires Valid()
      modifies this
      ensures Valid()
      ensures State() == Step(replayWindow.capacity, old(State()), Op.SetVersion(resourceType, resourceID, version))
    {
      if version == 0 {
        return;
      }
      var normalizedType, normalizedID := Trim(resourceType), Trim(resourceID);
      if normalizedType == "" || normalizedID == "" {
        return;
      }
      resourceVersions := resourceVersions[JoinKey(normalizedType, normalizedID) := version];
    }

    method ReplaceAllVersions(snapshot: Versions)
      requires Valid()
      modifies this
      ensures Valid()
      ensures State() == Step(replayWindow.capacity, old(State()), Op.ReplaceAllVersions(snapshot))
    {
      resourceVersions := map[];
      var remaining := snapshot.Keys;
      while remaining != {}
        invariant Valid() && remaining <= snapshot.Keys && replayWindow.order == old(replayWindow.order)
        invariant resourceVersions == map key | key in Usable(snapshot) && key !in remaining :: snapshot[key]
        decreases |remaining|
      {
        var key :| key in remaining;
        remaining := remaining - {key};
        if Trim(key) == "" {
          continue;
        }
        if snapshot[key] == 0 {
          continue;
        }
        resourceVersions := resourceVersions[key := snapshot[key]];
      }
    }
  }
}
