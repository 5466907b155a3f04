/** Control-plane messages and their validation (internal/control/types.go). */
module Control {
  import opened Words
  import opened Outcomes
  import opened Text
  import opened Wire

  const MAX_BATCH_EVENTS: nat := 4096
  const MAX_CONTROL_MESSAGE_BYTES: nat := 0x30_0000
  const CONTROL_MESSAGE_OVERHEAD: nat := 128
  const EVENT_ENCODED_OVERHEAD: nat := 64
  const MAX_SUBSCRIPTIONS: nat := 4096
  const MAX_CONTROL_ERROR_DETAIL: nat := 256

  // ---------- Invalidation batches ----------

  /** One stream delivery. K holds the key: bytes here, a heap buffer in ControlHeap. */
  datatype InvalidationEvent<+K> = InvalidationEvent(
    streamSequence: U64, key: K, version: VersionTag, kind: U8, mutationId: MutationId)

  type Event = InvalidationEvent<Bytes>

  datatype InvalidationBatch = InvalidationBatch(streamId: U32, hubGeneration: U64, events: seq<Event>)

  function EventVerdict(e: Event, streamId: U32): Outcome {
    if e.streamSequence == 0 || e.version.sequence == 0 then Fail(InvalidSequence)
    else if |e.key| == 0 then Fail(KeyEmpty)
    else if |e.key| > MAX_KEY_LEN then Fail(KeyTooLarge)
    else if e.version.partitionId != streamId then Fail(PartitionMismatch)
    else if !ValidRecordKind(e.kind) then Fail(InvalidRecordKind)
    else if e.mutationId == ZERO_ID then Fail(MutationIdRequired)
    else Pass
  }

  /** EstimatedEncodedSize, as a sum over the events. */
  function EstimatedSize(events: seq<Event>): nat
    decreases |events|
  {
    if |events| == 0 then CONTROL_MESSAGE_OVERHEAD
    else
      var last := |events| - 1;
      EstimatedSize(events[..last]) + EVENT_ENCODED_OVERHEAD + |events[last].key|
  }

  function TotalKeyBytes(events: seq<Event>): nat {
    if |events| == 0 then 0 else |events[0].key| + TotalKeyBytes(events[1..])
  }

  /** The estimate in closed form. */
  lemma {:induction false} EstimateFormula(events: seq<Event>)
    ensures EstimatedSize(events) == 128 + 64 * |events| + TotalKeyBytes(events)
    decreases |events|
  {
    if |events| > 0 {
      var last := |events| - 1;
      EstimateFormula(events[..last]);
      TotalKeyBytesSnoc(events);
    }
  }

  lemma {:induction false} TotalKeyBytesSnoc(events: seq<Event>)
    requires |events| > 0
    ensures TotalKeyBytes(events) == TotalKeyBytes(events[..|events| - 1]) + |events[|events| - 1].key|
    decreases |events|
  {
    var last := |events| - 1;
    if last > 0 {
      TotalKeyBytesSnoc(events[1..]);
      assert events[1..][..last - 1] == events[..last][1..];
    }
  }

  method EstimatedEncodedSize(m: InvalidationBatch) returns (n: nat)
    ensures n == EstimatedSize(m.events)
  {
    n := CONTROL_MESSAGE_OVERHEAD;
    for i := 0 to |m.events|
      invariant n == EstimatedSize(m.events[..i])
    {
      n := n + EVENT_ENCODED_OVERHEAD + |m.events[i].key|;
      assert m.events[..i + 1][..i] == m.events[..i];
    }
    assert m.events[..|m.events|] == m.events;
  }

  /** What the check of event i, after clean predecessors, answers. Sequences are compared as integers. */
  function EventCheck(events: seq<Event>, streamId: U32, i: nat): Outcome
    requires i < |events|
  {
    if EventVerdict(events[i], streamId).Fail? then EventVerdict(events[i], streamId)
    else if i > 0 && events[i].streamSequence != events[i - 1].streamSequence + 1 then Fail(NonContiguousBatch)
    else Pass
  }

  /** The first failing check among the first n events, if any. */
  function EventsVerdict(events: seq<Event>, streamId: U32, n: nat): Outcome
    requires n <= |events|
    decreases n
  {
    if n == 0 then Pass
    else if EventsVerdict(events, streamId, n - 1).Fail? then EventsVerdict(events, streamId, n - 1)
    else EventCheck(events, streamId, n - 1)
  }

  function BatchVerdict(m: InvalidationBatch): Outcome {
    if m.hubGeneration == 0 then Fail(InvalidHubGeneration)
    else if |m.events| == 0 then Fail(EmptyInvalidationBatch)
    else if |m.events| > MAX_BATCH_EVENTS then Fail(TooManyEvents)
    else if EventsVerdict(m.events, m.streamId, |m.events|).Fail? then EventsVerdict(m.events, m.streamId, |m.events|)
    else if EstimatedSize(m.events) > MAX_CONTROL_MESSAGE_BYTES then Fail(BatchTooLarge)
    else Pass
  }

  /** InvalidationBatch.Validate, with its wrapping previous+1. */
  method ValidateBatch(m: InvalidationBatch) returns (r: Outcome)
    ensures r == BatchVerdict(m)
  {
    if m.hubGeneration == 0 {
      return Fail(InvalidHubGeneration);
    }
    if |m.events| == 0 {
      return Fail(EmptyInvalidationBatch);
    }
    if |m.events| > MAX_BATCH_EVENTS {
      return Fail(TooManyEvents);
    }
    var previous: U64 := 0;
    for i := 0 to |m.events|
      invariant EventsVerdict(m.events, m.streamId, i).Pass?
      invariant i > 0 ==> previous == m.events[i - 1].streamSequence
    {
      var event := m.events[i];
      var verdict := EventVerdict(event, m.streamId);
      if verdict.Fail? {
        FirstFailureStays(m.events, m.streamId, i + 1, |m.events|);
        return verdict;
      }
      if i > 0 && event.streamSequence != Add64(previous, 1) {
        FirstFailureStays(m.events, m.streamId, i + 1, |m.events|);
        return Fail(NonContiguousBatch);
      }
      previous := event.streamSequence;
    }
    var size := EstimatedEncodedSize(m);
    if size > MAX_CONTROL_MESSAGE_BYTES {
      return Fail(BatchTooLarge);
    }
    return Pass;
  }

  lemma {:induction false} FirstFailureStays(events: seq<Event>, streamId: U32, i: nat, n: nat)
    requires i <= n <= |events|
    requires EventsVerdict(events, streamId, i).Fail?
    ensures EventsVerdict(events, streamId, n) == EventsVerdict(events, streamId, i)
    decreases n
  {
    if i < n {
      FirstFailureStays(events, streamId, i, n - 1);
    }
  }

  /** Stream sequences rise by exactly one, as integers. */
  predicate Contiguous(events: seq<Event>) {
    forall i | 0 < i < |events| :: events[i].streamSequence == events[i - 1].streamSequence + 1
  }

  /** What an accepted event promises. */
  predicate ValidEvent(e: Event, streamId: U32) {
    && 0 < e.streamSequence
    && 0 < |e.key| <= MAX_KEY_LEN
    && e.version.partitionId == streamId && 0 < e.version.sequence
    && e.kind in {RECORD_VALUE, RECORD_TOMBSTONE}
    && e.mutationId != ZERO_ID
  }

  /** A non-zero sequence and version, and a key within bounds: the first checks of an event. */
  predicate Bounded(e: Event) {
    e.streamSequence > 0 && e.version.sequence > 0 && 0 < |e.key| <= MAX_KEY_LEN
  }

  /** Which error an event gets, and that it gets none exactly when it is valid. */
  lemma EventErrors(e: Event, streamId: U32)
    ensures EventVerdict(e, streamId).Pass? <==> ValidEvent(e, streamId)
    ensures EventVerdict(e, streamId) == Fail(InvalidSequence) <==> e.streamSequence == 0 || e.version.sequence == 0
    ensures EventVerdict(e, streamId) == Fail(KeyEmpty) <==>
      e.streamSequence > 0 && e.version.sequence > 0 && e.key == []
    ensures EventVerdict(e, streamId) == Fail(KeyTooLarge) <==>
      e.streamSequence > 0 && e.version.sequence > 0 && |e.key| > MAX_KEY_LEN
    ensures EventVerdict(e, streamId) == Fail(PartitionMismatch) <==> Bounded(e) && e.version.partitionId != streamId
    ensures EventVerdict(e, streamId) == Fail(InvalidRecordKind) <==>
      Bounded(e) && e.version.partitionId == streamId && e.kind > RECORD_TOMBSTONE
    ensures EventVerdict(e, streamId) == Fail(MutationIdRequired) <==>
      Bounded(e) && e.version.partitionId == streamId && e.kind <= RECORD_TOMBSTONE && e.mutationId == ZERO_ID
    ensures EventVerdict(e, streamId).Fail? ==> EventVerdict(e, streamId).error in {
      InvalidSequence, KeyEmpty, KeyTooLarge, PartitionMismatch, InvalidRecordKind, MutationIdRequired}
  {
  }

  /** A gap is reported on the event after it, when that event is valid itself. */
  lemma GapErrors(events: seq<Event>, streamId: U32, i: nat)
    requires i < |events|
    ensures EventCheck(events, streamId, i) == Fail(NonContiguousBatch) <==>
      ValidEvent(events[i], streamId) && 0 < i && events[i].streamSequence != events[i - 1].streamSequence + 1
    ensures !ValidEvent(events[i], streamId) ==> EventCheck(events, streamId, i) == EventVerdict(events[i], streamId)
  {
    EventErrors(events[i], streamId);
  }

  /** What an accepted batch promises. */
  predicate Accepted(m: InvalidationBatch) {
    && m.hubGeneration != 0
    && 0 < |m.events| <= MAX_BATCH_EVENTS
    && (forall e | e in m.events :: ValidEvent(e, m.streamId))
    && Contiguous(m.events)
    && EstimatedSize(m.events) <= MAX_CONTROL_MESSAGE_BYTES
  }

  lemma {:induction false} EventsVerdictPasses(events: seq<Event>, streamId: U32, n: nat)
    requires n <= |events|
    ensures EventsVerdict(events, streamId, n).Pass? <==> forall i | 0 <= i < n :: EventCheck(events, streamId, i).Pass?
    decreases n
  {
    if n > 0 {
      EventsVerdictPasses(events, streamId, n - 1);
    }
  }

  /** The event loop passes exactly on valid, contiguous events. */
  lemma EventsPassExactly(events: seq<Event>, streamId: U32)
    ensures EventsVerdict(events, streamId, |events|).Pass? <==>
      (forall e | e in events :: ValidEvent(e, streamId)) && Contiguous(events)
  {
    var n := |events|;
    EventsVerdictPasses(events, streamId, n);
    if (forall e | e in events :: ValidEvent(e, streamId)) && Contiguous(events) {
      forall i | 0 <= i < n
        ensures EventCheck(events, streamId, i).Pass?
      {
        assert events[i] in events;
      }
    }
    if forall i | 0 <= i < n :: EventCheck(events, streamId, i).Pass? {
      forall e | e in events
        ensures ValidEvent(e, streamId)
      {
        var i :| 0 <= i < n && events[i] == e;
        assert EventCheck(events, streamId, i).Pass?;
      }
      forall i | 0 < i < n
        ensures events[i].streamSequence == events[i - 1].streamSequence + 1
      {
        assert EventCheck(events, streamId, i).Pass?;
      }
    }
  }

  /** Validate accepts exactly the batches that keep every promise. */
  lemma BatchAccepted(m: InvalidationBatch)
    ensures BatchVerdict(m).Pass? <==> Accepted(m)
  {
    hide EventsVerdict, ValidEvent, Contiguous, EstimatedSize;
    EventsPassExactly(m.events, m.streamId);
  }

  /** A per-event error names the first event at fault. */
  lemma {:induction false} ErrorNamesFirstFault(events: seq<Event>, streamId: U32, n: nat) returns (i: nat)
    requires n <= |events| && EventsVerdict(events, streamId, n).Fail?
    ensures i < n && EventsVerdict(events, streamId, n) == EventCheck(events, streamId, i)
    ensures forall j | 0 <= j < i :: EventCheck(events, streamId, j).Pass?
    decreases n
  {
    if EventsVerdict(events, streamId, n - 1).Fail? {
      i := ErrorNamesFirstFault(events, streamId, n - 1);
    } else {
      i := n - 1;
      EventsVerdictPasses(events, streamId, n - 1);
    }
  }

  /** Which error a batch gets: its own three checks, then its first event at fault, then its size. */
  lemma BatchErrors(m: InvalidationBatch)
    ensures BatchVerdict(m) == Fail(InvalidHubGeneration) <==> m.hubGeneration == 0
    ensures BatchVerdict(m) == Fail(EmptyInvalidationBatch) <==> m.hubGeneration != 0 && m.events == []
    ensures BatchVerdict(m) == Fail(TooManyEvents) <==> m.hubGeneration != 0 && |m.events| > MAX_BATCH_EVENTS
    ensures BatchVerdict(m) == Fail(BatchTooLarge) <==>
      m.hubGeneration != 0 && 0 < |m.events| <= MAX_BATCH_EVENTS
      && (forall e | e in m.events :: ValidEvent(e, m.streamId)) && Contiguous(m.events)
      && EstimatedSize(m.events) > MAX_CONTROL_MESSAGE_BYTES
    ensures (m.hubGeneration != 0 && 0 < |m.events| <= MAX_BATCH_EVENTS
             && EventsVerdict(m.events, m.streamId, |m.events|).Fail?) ==>
      BatchVerdict(m) == EventsVerdict(m.events, m.streamId, |m.events|)
  {
    hide EventVerdict, ValidEvent, EstimatedSize, EventsVerdict, Contiguous;
    EventsPassExactly(m.events, m.streamId);
    if EventsVerdict(m.events, m.streamId, |m.events|).Fail? {
      var i := ErrorNamesFirstFault(m.events, m.streamId, |m.events|);
      EventErrors(m.events[i], m.streamId);
    }
  }

  /**
    The wrapping successor of the check is the integer successor exactly when the
    sequence is not zero: the per-event test is what rules the wrap out.
  */
  lemma WrappedSuccessor(previous: U64, current: U64)
    ensures current == Add64(previous, 1) && current != 0 <==> current == previous + 1
    ensures current == Add64(previous, 1) && current == 0 <==> previous == 0xFFFF_FFFF_FFFF_FFFF && current == 0
  {
  }

  /** An accepted batch counts up from its first sequence and never reaches 2^64. */
  lemma AcceptedSequences(m: InvalidationBatch, i: nat)
    requires BatchVerdict(m).Pass? && i < |m.events|
    ensures 0 < m.events[0].streamSequence
    ensures m.events[i].streamSequence == m.events[0].streamSequence + i
    ensures m.events[0].streamSequence + |m.events| <= TWO_TO_THE_64
  {
    BatchAccepted(m);
    SequenceAt(m.events, i);
    SequenceAt(m.events, |m.events| - 1);
    assert m.events[0] in m.events;
  }

  /** Event i of a contiguous run carries the sequence first + i, with no wrap anywhere. */
  lemma {:induction false} SequenceAt(events: seq<Event>, i: nat)
    requires Contiguous(events) && i < |events|
    ensures events[i].streamSequence == events[0].streamSequence + i
    decreases i
  {
    if i > 0 {
      SequenceAt(events, i - 1);
    }
  }

  // ---------- Hello and Subscribe ----------

  datatype StreamWatermark = StreamWatermark(streamId: U32, appliedThrough: U64, hubGeneration: U64)

  datatype Hello = Hello(nodeId: U64, protocol: ProtocolRange, subscriptions: seq<StreamWatermark>,
                         clusterId: string, expectedHubGeneration: U64)

  datatype Subscribe = Subscribe(hubGeneration: U64, streamIds: seq<U32>)

  predicate Distinct(ids: seq<U32>) {
    forall i, j | 0 <= i < j < |ids| :: ids[i] != ids[j]
  }

  /** The first n ids are pairwise distinct and the n-th repeats one of them. */
  predicate FirstRepeat(ids: seq<U32>, n: nat) {
    n < |ids| && Distinct(ids[..n]) && ids[n] in ids[..n]
  }

  function IdsOf(subscriptions: seq<StreamWatermark>): (ids: seq<U32>)
    ensures |ids| == |subscriptions|
    ensures forall i | 0 <= i < |ids| :: ids[i] == subscriptions[i].streamId
  {
    seq(|subscriptions|, i requires 0 <= i < |subscriptions| => subscriptions[i].streamId)
  }

  /** What the list loop of Hello answers on its first n entries. */
  function WatermarksVerdict(subscriptions: seq<StreamWatermark>, n: nat): Outcome
    requires n <= |subscriptions|
    decreases n
  {
    if n == 0 then Pass
    else if WatermarksVerdict(subscriptions, n - 1).Fail? then WatermarksVerdict(subscriptions, n - 1)
    else if subscriptions[n - 1].hubGeneration == 0 then Fail(InvalidHubGeneration)
    else if subscriptions[n - 1].streamId in IdsOf(subscriptions[..n - 1]) then Fail(DuplicateSubscription)
    else Pass
  }

  function HelloVerdict(m: Hello): Outcome {
    if m.nodeId == 0 then Fail(InvalidNodeId)
    else if m.protocol.Validate().Fail? then m.protocol.Validate()
    else if Blank(m.clusterId) then Fail(InvalidClusterId)
    else if |m.subscriptions| > MAX_SUBSCRIPTIONS then Fail(TooManySubscriptions)
    else WatermarksVerdict(m.subscriptions, |m.subscriptions|)
  }

  method ValidateHello(m: Hello) returns (r: Outcome)
    ensures r == HelloVerdict(m)
  {
    if m.nodeId == 0 {
      return Fail(InvalidNodeId);
    }
    if m.protocol.Validate().Fail? {
      return m.protocol.Validate();
    }
    if Blank(m.clusterId) {
      return Fail(InvalidClusterId);
    }
    if |m.subscriptions| > MAX_SUBSCRIPTIONS {
      return Fail(TooManySubscriptions);
    }
    var seen: set<U32> := {};
    for i := 0 to |m.subscriptions|
      invariant WatermarksVerdict(m.subscriptions, i).Pass?
      invariant forall id :: id in seen <==> id in IdsOf(m.subscriptions[..i])
    {
      var subscription := m.subscriptions[i];
      if subscription.hubGeneration == 0 {
        WatermarkFailureStays(m.subscriptions, i + 1, |m.subscriptions|);
        return Fail(InvalidHubGeneration);
      }
      if subscription.streamId in seen {
        WatermarkFailureStays(m.subscriptions, i + 1, |m.subscriptions|);
        return Fail(DuplicateSubscription);
      }
      seen := seen + {subscription.streamId};
      assert IdsOf(m.subscriptions[..i + 1]) == IdsOf(m.subscriptions[..i]) + [subscription.streamId];
    }
    return Pass;
  }

  lemma {:induction false} WatermarkFailureStays(subscriptions: seq<StreamWatermark>, i: nat, n: nat)
    requires i <= n <= |subscriptions|
    requires WatermarksVerdict(subscriptions, i).Fail?
    ensures WatermarksVerdict(subscriptions, n) == WatermarksVerdict(subscriptions, i)
    decreases n
  {
    if i < n {
      WatermarkFailureStays(subscriptions, i, n - 1);
    }
  }

  predicate GenerationsSet(subscriptions: seq<StreamWatermark>) {
    forall s | s in subscriptions :: s.hubGeneration != 0
  }

  /** The loop passes exactly on distinct streams with non-zero generations. */
  lemma {:induction false} WatermarksPass(subscriptions: seq<StreamWatermark>, n: nat)
    requires n <= |subscriptions|
    ensures WatermarksVerdict(subscriptions, n).Pass? <==>
      Distinct(IdsOf(subscriptions[..n])) && GenerationsSet(subscriptions[..n])
    decreases n
  {
    if n > 0 {
      WatermarksPass(subscriptions, n - 1);
      var last := subscriptions[n - 1];
      assert subscriptions[..n] == subscriptions[..n - 1] + [last];
      assert IdsOf(subscriptions[..n]) == IdsOf(subscriptions[..n - 1]) + [last.streamId];
      DistinctSnoc(IdsOf(subscriptions[..n - 1]), last.streamId);
    }
  }

  lemma DistinctSnoc(ids: seq<U32>, id: U32)
    ensures Distinct(ids + [id]) <==> Distinct(ids) && id !in ids
  {
    var all := ids + [id];
    if Distinct(all) {
      forall i, j | 0 <= i < j < |ids|
        ensures ids[i] != ids[j]
      {
        assert all[i] != all[j];
      }
    }
    if id in ids {
      var i :| 0 <= i < |ids| && ids[i] == id;
      assert all[i] == all[|ids|];
    }
  }

  predicate HelloAccepted(m: Hello) {
    && m.nodeId != 0
    && 0 < m.protocol.minSupported <= m.protocol.version
    && !Blank(m.clusterId)
    && |m.subscriptions| <= MAX_SUBSCRIPTIONS
    && Distinct(IdsOf(m.subscriptions))
    && GenerationsSet(m.subscriptions)
  }

  lemma HelloAcceptedExactly(m: Hello)
    ensures HelloVerdict(m).Pass? <==> HelloAccepted(m)
    ensures HelloVerdict(m) == Fail(InvalidNodeId) <==> m.nodeId == 0
    ensures HelloVerdict(m) == Fail(InvalidProtocolRange) <==> m.nodeId != 0 && m.protocol.Validate().Fail?
    ensures HelloVerdict(m) == Fail(InvalidClusterId) ==> Blank(m.clusterId)
    ensures HelloVerdict(m) == Fail(TooManySubscriptions) ==> |m.subscriptions| > MAX_SUBSCRIPTIONS
    ensures HelloVerdict(m) in {Fail(InvalidHubGeneration), Fail(DuplicateSubscription)} ==>
      HelloVerdict(m) == WatermarksVerdict(m.subscriptions, |m.subscriptions|)
  {
    hide Blank, WatermarksVerdict;
    var n := |m.subscriptions|;
    WatermarksPass(m.subscriptions, n);
    assert m.subscriptions[..n] == m.subscriptions;
    if WatermarksVerdict(m.subscriptions, n).Fail? {
      var i := WatermarkErrorNamesFirstFault(m.subscriptions, n);
    }
  }

  /** A failing list entry is the first one at fault: everything before it is clean. */
  lemma {:induction false} WatermarkErrorNamesFirstFault(subscriptions: seq<StreamWatermark>, n: nat) returns (i: nat)
    requires n <= |subscriptions| && WatermarksVerdict(subscriptions, n).Fail?
    ensures i < n && Distinct(IdsOf(subscriptions[..i])) && GenerationsSet(subscriptions[..i])
    ensures WatermarksVerdict(subscriptions, n) == Fail(InvalidHubGeneration) <==> subscriptions[i].hubGeneration == 0
    ensures WatermarksVerdict(subscriptions, n) == Fail(DuplicateSubscription) <==>
      subscriptions[i].hubGeneration != 0 && FirstRepeat(IdsOf(subscriptions), i)
    ensures WatermarksVerdict(subscriptions, n).error in {InvalidHubGeneration, DuplicateSubscription}
    decreases n
  {
    if WatermarksVerdict(subscriptions, n - 1).Fail? {
      i := WatermarkErrorNamesFirstFault(subscriptions, n - 1);
    } else {
      i := n - 1;
      WatermarksPass(subscriptions, n - 1);
      assert IdsOf(subscriptions)[..i] == IdsOf(subscriptions[..i]);
    }
  }

  /** The first repeated id among the first n, if any. */
  function IdsVerdict(ids: seq<U32>, n: nat): Outcome
    requires n <= |ids|
    decreases n
  {
    if n == 0 then Pass
    else if IdsVerdict(ids, n - 1).Fail? then IdsVerdict(ids, n - 1)
    else if ids[n - 1] in ids[..n - 1] then Fail(DuplicateSubscription)
    else Pass
  }

  function SubscribeVerdict(m: Subscribe): Outcome {
    if m.hubGeneration == 0 then Fail(InvalidHubGeneration)
    else if |m.streamIds| == 0 then Fail(EmptySubscriptions)
    else if |m.streamIds| > MAX_SUBSCRIPTIONS then Fail(TooManySubscriptions)
    else IdsVerdict(m.streamIds, |m.streamIds|)
  }

  method ValidateSubscribe(m: Subscribe) returns (r: Outcome)
    ensures r == SubscribeVerdict(m)
  {
    if m.hubGeneration == 0 {
      return Fail(InvalidHubGeneration);
    }
    if |m.streamIds| == 0 {
      return Fail(EmptySubscriptions);
    }
    if |m.streamIds| > MAX_SUBSCRIPTIONS {
      return Fail(TooManySubscriptions);
    }
    var seen: set<U32> := {};
    for i := 0 to |m.streamIds|
      invariant IdsVerdict(m.streamIds, i).Pass?
      invariant forall id :: id in seen <==> id in m.streamIds[..i]
    {
      if m.streamIds[i] in seen {
        IdFailureStays(m.streamIds, i + 1, |m.streamIds|);
        return Fail(DuplicateSubscription);
      }
      seen := seen + {m.streamIds[i]};
    }
    return Pass;
  }

  lemma {:induction false} IdFailureStays(ids: seq<U32>, i: nat, n: nat)
    requires i <= n <= |ids| && IdsVerdict(ids, i).Fail?
    ensures IdsVerdict(ids, n) == IdsVerdict(ids, i)
    decreases n
  {
    if i < n {
      IdFailureStays(ids, i, n - 1);
    }
  }

  lemma {:induction false} IdsPass(ids: seq<U32>, n: nat)
    requires n <= |ids|
    ensures IdsVerdict(ids, n) == if Distinct(ids[..n]) then Pass else Fail(DuplicateSubscription)
    decreases n
  {
    if n > 0 {
      IdsPass(ids, n - 1);
      assert ids[..n] == ids[..n - 1] + [ids[n - 1]];
      DistinctSnoc(ids[..n - 1], ids[n - 1]);
    }
  }

  predicate SubscribeAccepted(m: Subscribe) {
    m.hubGeneration != 0 && 0 < |m.streamIds| <= MAX_SUBSCRIPTIONS && Distinct(m.streamIds)
  }

  /** Subscribe passes exactly within the limit on distinct ids; a duplicate error is the first repeat. */
  lemma SubscribeAcceptedExactly(m: Subscribe)
    ensures SubscribeVerdict(m).Pass? <==> SubscribeAccepted(m)
    ensures SubscribeVerdict(m) == Fail(DuplicateSubscription) ==> exists n :: FirstRepeat(m.streamIds, n)
    ensures SubscribeVerdict(m) == Fail(InvalidHubGeneration) <==> m.hubGeneration == 0
    ensures SubscribeVerdict(m) == Fail(EmptySubscriptions) <==> m.hubGeneration != 0 && m.streamIds == []
    ensures SubscribeVerdict(m) == Fail(TooManySubscriptions) <==>
      m.hubGeneration != 0 && |m.streamIds| > MAX_SUBSCRIPTIONS
  {
    IdsPass(m.streamIds, |m.streamIds|);
    assert m.streamIds[..|m.streamIds|] == m.streamIds;
    if SubscribeVerdict(m) == Fail(DuplicateSubscription) {
      var n := RepeatIn(m.streamIds, |m.streamIds|);
    }
  }

  lemma {:induction false} RepeatIn(ids: seq<U32>, n: nat) returns (i: nat)
    requires n <= |ids| && IdsVerdict(ids, n).Fail?
    ensures i < n && FirstRepeat(ids, i)
    decreases n
  {
    if IdsVerdict(ids, n - 1).Fail? {
      i := RepeatIn(ids, n - 1);
    } else {
      i := n - 1;
      IdsPass(ids, i);
    }
  }

  // ---------- Scalar messages ----------

  datatype StreamAcknowledgement = StreamAcknowledgement(streamId: U32, appliedThrough: U64) {
    function Validate(): Outcome {
      if appliedThrough == 0 then Fail(InvalidSequence) else Pass
    }
  }

  datatype StreamCheckpoint = StreamCheckpoint(streamId: U32, hubGeneration: U64, streamHead: U64) {
    function Validate(): Outcome {
      if hubGeneration == 0 then Fail(InvalidHubGeneration) else Pass
    }
  }

  datatype ReplayRequest = ReplayRequest(streamId: U32, fromSequence: U64, toSequence: U64) {
    function Validate(): Outcome {
      if fromSequence == 0 || toSequence < fromSequence then Fail(InvalidSequenceRange) else Pass
    }
  }

  datatype ReplayUnavailable = ReplayUnavailable(
    streamId: U32, hubGeneration: U64, requestedFrom: U64, oldestAvailable: U64, streamHead: U64)
  {
    function Validate(): Outcome {
      if hubGeneration == 0 then Fail(InvalidHubGeneration)
      else if requestedFrom == 0 || oldestAvailable == 0 then Fail(InvalidSequenceRange)
      else if requestedFrom >= oldestAvailable then Fail(InvalidSequenceRange)
      else if oldestAvailable > streamHead && Sub64(oldestAvailable, streamHead) != 1 then Fail(InvalidSequenceRange)
      else Pass
    }

    /** The report names a retained window, possibly empty, above the request, over the integers. */
    lemma ValidateExact()
      ensures Validate().Pass? <==>
        hubGeneration != 0 && 0 < requestedFrom < oldestAvailable <= streamHead + 1
      ensures Validate().Fail? ==>
        Validate() == Fail(if hubGeneration == 0 then InvalidHubGeneration else InvalidSequenceRange)
    {
    }
  }

  datatype InvalidateConfirm = InvalidateConfirm(streamId: U32, streamSequence: U64, nodeId: U64) {
    function Validate(): Outcome {
      if streamSequence == 0 then Fail(InvalidSequence)
      else if nodeId == 0 then Fail(InvalidNodeId)
      else Pass
    }
  }

  datatype ControlError = ControlError(status: U16, detail: string) {
    function Validate(): Outcome {
      if !(status == STATUS_ERR_RATE_LIMITED || status == STATUS_ERR_BAD_GENERATION
           || status == STATUS_ERR_INVALID_ARGUMENT || status == STATUS_ERR_INTERNAL) then Fail(InvalidControlStatus)
      else if ByteLength(detail) > MAX_CONTROL_ERROR_DETAIL then Fail(ControlDetailTooLarge)
      else Pass
    }
  }

  /** The scalar messages are accepted exactly on these terms, over the integers. */
  lemma ScalarsAcceptedExactly(a: StreamAcknowledgement, c: StreamCheckpoint, r: ReplayRequest, i: InvalidateConfirm,
                               e: ControlError)
    ensures a.Validate() == if a.appliedThrough > 0 then Pass else Fail(InvalidSequence)
    ensures c.Validate() == if c.hubGeneration > 0 then Pass else Fail(InvalidHubGeneration)
    ensures r.Validate() == if 0 < r.fromSequence <= r.toSequence then Pass else Fail(InvalidSequenceRange)
    ensures i.Validate().Pass? <==> i.streamSequence > 0 && i.nodeId > 0
    ensures i.Validate() == Fail(InvalidNodeId) <==> i.streamSequence > 0 && i.nodeId == 0
    ensures i.Validate().Fail? ==> i.Validate().error in {InvalidSequence, InvalidNodeId}
    ensures e.Validate().Pass? <==> e.status in {STATUS_ERR_BAD_GENERATION, STATUS_ERR_RATE_LIMITED,
      STATUS_ERR_INVALID_ARGUMENT, STATUS_ERR_INTERNAL} && ByteLength(e.detail) <= MAX_CONTROL_ERROR_DETAIL
    ensures e.Validate() == Fail(ControlDetailTooLarge) ==> ByteLength(e.detail) > MAX_CONTROL_ERROR_DETAIL
    ensures e.Validate() == Fail(InvalidControlStatus) <==> e.status !in {STATUS_ERR_BAD_GENERATION,
      STATUS_ERR_RATE_LIMITED, STATUS_ERR_INVALID_ARGUMENT, STATUS_ERR_INTERNAL}
    ensures e.Validate().Fail? ==> e.Validate().error in {InvalidControlStatus, ControlDetailTooLarge}
  {
    hide ByteLength;
  }
}
