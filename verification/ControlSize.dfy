/**
  The encoded size of control messages. Each message of
  api/proto/gossipcache/v1/control.proto is encoded in full, and the size
  promises of internal/control/types.go are proved of those bytes.
*/
module ControlSize {
  import opened Words
  import opened Outcomes
  import opened Text
  import opened Wire
  import opened Control
  import opened ControlProto
  import opened ProtoEncoding

  // ---------- Encodings ----------

  function EncodeVersionTag(v: PbVersionTag): Bytes {
    UintField(1, v.partitionId) + UintField(2, v.sequence)
  }

  function EncodeMutationId(id: Bytes): Bytes { BytesField(1, id) }

  function EncodeEvent(p: PbEvent): Bytes {
    UintField(1, p.streamSequence)
    + BytesField(2, p.key)
    + OptionalField(3, p.version, EncodeVersionTag)
    + EnumField(4, p.kind)
    + OptionalField(5, p.mutationId, EncodeMutationId)
  }

  function EncodeEvents(events: seq<Option<PbEvent>>): Bytes { RepeatedField(3, events, EncodeEvent) }

  function EncodeBatch(m: PbBatch): Bytes {
    UintField(1, m.streamId) + UintField(2, m.hubGeneration) + EncodeEvents(m.events)
  }

  function EncodeWatermark(w: PbStreamWatermark): Bytes {
    UintField(1, w.streamId) + UintField(2, w.appliedThrough) + UintField(3, w.hubGeneration)
  }

  function EncodeWatermarks(ws: seq<Option<PbStreamWatermark>>): Bytes { RepeatedField(4, ws, EncodeWatermark) }

  function EncodeHello(m: PbHello): Bytes {
    UintField(1, m.nodeId) + UintField(2, m.protocolVersion) + UintField(3, m.minSupportedVersion)
    + EncodeWatermarks(m.subscriptions) + StringField(5, m.clusterId) + UintField(6, m.expectedHubGeneration)
  }

  function EncodeSubscribe(m: PbSubscribe): Bytes {
    UintField(1, m.hubGeneration) + PackedField(2, m.streamIds)
  }

  function EncodeAcknowledgement(m: PbStreamAcknowledgement): Bytes {
    UintField(1, m.streamId) + UintField(2, m.appliedThrough)
  }

  function EncodeReplayRequest(m: PbReplayRequest): Bytes {
    UintField(1, m.streamId) + UintField(2, m.fromSequence) + UintField(3, m.toSequence)
  }

  function EncodeConfirm(m: PbInvalidateConfirm): Bytes {
    UintField(1, m.streamId) + UintField(2, m.streamSequence) + UintField(3, m.nodeId)
  }

  function EncodeCheckpoint(m: PbStreamCheckpoint): Bytes {
    UintField(1, m.streamId) + UintField(2, m.hubGeneration) + UintField(3, m.streamHead)
  }

  function EncodeReplayUnavailable(m: PbReplayUnavailable): Bytes {
    UintField(1, m.streamId) + UintField(2, m.hubGeneration) + UintField(3, m.requestedFrom)
    + UintField(4, m.oldestAvailable) + UintField(5, m.streamHead)
  }

  function EncodeControlError(m: PbControlError): Bytes {
    EnumField(1, m.status) + StringField(2, m.detail)
  }

  function EncodeClientBody(b: PbClientBody): Bytes {
    match b
    case PbHelloBody(m) => MessageField(1, m, EncodeHello)
    case PbSubscribeBody(m) => MessageField(2, m, EncodeSubscribe)
    case PbAcknowledgementBody(m) => MessageField(3, m, EncodeAcknowledgement)
    case PbReplayRequestBody(m) => MessageField(4, m, EncodeReplayRequest)
    case PbConfirmBody(m) => MessageField(5, m, EncodeConfirm)
  }

  function EncodeServerBody(b: PbServerBody<Bytes>): Bytes {
    match b
    case PbBatchBody(m) => MessageField(1, m, EncodeBatch)
    case PbCheckpointBody(m) => MessageField(2, m, EncodeCheckpoint)
    case PbReplayUnavailableBody(m) => MessageField(3, m, EncodeReplayUnavailable)
    case PbControlErrorBody(m) => MessageField(4, m, EncodeControlError)
  }

  function EncodeClientMessage(m: PbClientMessage): Bytes {
    if m.body.None? then [] else EncodeClientBody(m.body.value)
  }

  function EncodeServerMessage(m: PbServerMessage<Bytes>): Bytes {
    if m.body.None? then [] else EncodeServerBody(m.body.value)
  }

  // ---------- Batches ----------

  lemma LenFieldSize(field: nat, payload: Bytes)
    requires field < 16
    ensures |payload| < 0x80 ==> |LenField(field, payload)| == 2 + |payload|
    ensures |payload| < 0x4000 ==> |LenField(field, payload)| <= 3 + |payload|
    ensures |payload| < 0x1000_0000 ==> |LenField(field, payload)| <= 5 + |payload|
    ensures |payload| < 0x8_0000_0000 ==> |LenField(field, payload)| <= 6 + |payload|
  {
    VarintWidths(|payload|);
  }

  lemma SmallEnumField(field: nat, v: I32)
    requires field < 16 && 0 <= v < 128
    ensures |EnumField(field, v)| <= 2
  {
    VarintWidths(v);
  }

  lemma AnyKindSize(kind: U8)
    ensures |EnumField(4, kind)| <= 3
  {
    VarintWidths(kind);
  }

  /** The submessages of an event: at most 19 bytes of version and 20 of identity. */
  lemma EventPartSizes(v: PbVersionTag, id: MutationId)
    ensures |MessageField(3, Some(v), EncodeVersionTag)| <= 19
    ensures |MessageField<Bytes>(5, Some(id), EncodeMutationId)| == 20
  {
    Uint32FieldSize(1, v.partitionId);
    Uint64FieldSize(2, v.sequence);
    LenFieldSize(3, EncodeVersionTag(v));
    LenFieldSize(1, id);
    assert |EncodeMutationId(id)| == 18;
    LenFieldSize(5, EncodeMutationId(id));
  }

  /** Tag, length and body of one event: at most 58 bytes more than its key. */
  lemma EventSize(e: Event)
    requires |e.key| <= MAX_KEY_LEN && ValidRecordKind(e.kind)
    ensures |MessageField(3, Some(ProtoEvent(e)), EncodeEvent)| <= 58 + |e.key|
  {
    hide LenField, UintField, EncodeVersionTag, EncodeMutationId;
    var p := ProtoEvent(e);
    EventPartSizes(p.version.value, e.mutationId);
    Uint64FieldSize(1, e.streamSequence);
    LenFieldSize(2, e.key);
    SmallEnumField(4, e.kind);
    assert |EncodeEvent(p)| <= 55 + |e.key|;
    LenFieldSize(3, EncodeEvent(p));
  }

  lemma {:induction false} EventsSize(events: seq<Event>, n: nat)
    requires n <= |events|
    requires forall e | e in events :: |e.key| <= MAX_KEY_LEN && ValidRecordKind(e.kind)
    ensures |EncodeEvents(ProtoEvents(events)[..n])| + 6 * n + CONTROL_MESSAGE_OVERHEAD
      <= EstimatedSize(events[..n])
    decreases n
  {
    hide MessageField, EncodeEvent, ProtoEvent;
    var ps := ProtoEvents(events);
    if n > 0 {
      EventsSize(events, n - 1);
      assert ps[..n][..n - 1] == ps[..n - 1] && events[..n][..n - 1] == events[..n - 1];
      assert events[n - 1] in events;
      EventSize(events[n - 1]);
    }
  }

  /**
    An accepted batch, encoded in its envelope, stays within its estimate, and the
    estimate within the frozen limit. The estimate is never tight: it exceeds the
    encoding by 106 bytes and 6 more per event.
  */
  lemma BatchWithinEstimate(m: InvalidationBatch)
    requires BatchVerdict(m).Pass?
    ensures |EncodeServerMessage(ProtoServerMessage(BatchBody(m)))| + 106 + 6 * |m.events| <= EstimatedSize(m.events)
    ensures EstimatedSize(m.events) <= MAX_CONTROL_MESSAGE_BYTES
  {
    hide UintField, LenField, EncodeEvents, EstimatedSize, EventVerdict, ValidEvent;
    var p, n := ProtoBatch(m), |m.events|;
    BatchAccepted(m);
    forall e | e in m.events
      ensures |e.key| <= MAX_KEY_LEN && ValidRecordKind(e.kind)
    {
      ValidEventBounds(e, m.streamId);
    }
    EventsSize(m.events, n);
    assert ProtoEvents(m.events)[..n] == p.events && m.events[..n] == m.events;
    Uint32FieldSize(1, p.streamId);
    Uint64FieldSize(2, p.hubGeneration);
    LenFieldSize(1, EncodeBatch(p));
  }

  lemma ValidEventBounds(e: Event, streamId: U32)
    requires ValidEvent(e, streamId)
    ensures |e.key| <= MAX_KEY_LEN && ValidRecordKind(e.kind)
  {
  }

  /** No acceptance: a key of any length below 2 GiB, and any uint8 kind. */
  lemma AnyEventSize(e: Event)
    requires |e.key| < 0x8000_0000
    ensures |e.key| + 64 < 0x1000_0000 ==> |MessageField(3, Some(ProtoEvent(e)), EncodeEvent)| <= 63 + |e.key|
    ensures |MessageField(3, Some(ProtoEvent(e)), EncodeEvent)| <= 65 + |e.key|
  {
    hide LenField, UintField, EncodeVersionTag, EncodeMutationId;
    var p := ProtoEvent(e);
    EventPartSizes(p.version.value, e.mutationId);
    Uint64FieldSize(1, e.streamSequence);
    LenFieldSize(2, e.key);
    AnyKindSize(e.kind);
    LenFieldSize(3, EncodeEvent(p));
  }

  /**
    Only keys of 256 MiB and more cost a byte or two above their estimate, and what
    they add is at most one part in 2^27 of the estimate itself.
  */
  lemma {:induction false} AnyEventsSize(events: seq<Event>, n: nat)
    requires n <= |events|
    requires forall e | e in events :: |e.key| < 0x8000_0000
    ensures var estimate := EstimatedSize(events[..n]);
      0x800_0000 * (|EncodeEvents(ProtoEvents(events)[..n])| + n + CONTROL_MESSAGE_OVERHEAD) + CONTROL_MESSAGE_OVERHEAD
      <= 0x800_0000 * estimate + estimate
    decreases n
  {
    hide MessageField, EncodeEvent, ProtoEvent;
    var ps := ProtoEvents(events);
    if n > 0 {
      AnyEventsSize(events, n - 1);
      assert ps[..n][..n - 1] == ps[..n - 1] && events[..n][..n - 1] == events[..n - 1];
      assert events[n - 1] in events;
      AnyEventSize(events[n - 1]);
    }
  }

  lemma {:induction false} KeysWithinEstimate(events: seq<Event>)
    ensures CONTROL_MESSAGE_OVERHEAD <= EstimatedSize(events)
    ensures forall e | e in events :: |e.key| < EstimatedSize(events)
    decreases |events|
  {
    if |events| > 0 {
      var last := |events| - 1;
      KeysWithinEstimate(events[..last]);
      assert events == events[..last] + [events[last]];
    }
  }

  /**
    The estimate bounds the encoding of every batch, accepted or not, that a protobuf
    message can hold: any events, kinds and keys, up to an estimate of 2 GiB.
  */
  lemma EstimateIsUpperBound(m: InvalidationBatch)
    requires EstimatedSize(m.events) <= 0x8000_0000
    ensures |EncodeServerMessage(ProtoServerMessage(BatchBody(m)))| + 90 + |m.events| <= EstimatedSize(m.events)
  {
    hide UintField, LenField, EncodeEvents, EstimatedSize;
    var p, n := ProtoBatch(m), |m.events|;
    KeysWithinEstimate(m.events);
    AnyEventsSize(m.events, n);
    assert ProtoEvents(m.events)[..n] == p.events && m.events[..n] == m.events;
    Uint32FieldSize(1, p.streamId);
    Uint64FieldSize(2, p.hubGeneration);
    LenFieldSize(1, EncodeBatch(p));
  }

  // ---------- Hello ----------

  lemma {:induction false} WatermarksSize(ws: seq<Option<PbStreamWatermark>>)
    requires forall w | w in ws :: w.Some?
    ensures |EncodeWatermarks(ws)| <= 30 * |ws|
    decreases |ws|
  {
    hide UintField, LenField;
    if |ws| > 0 {
      var last := |ws| - 1;
      WatermarksSize(ws[..last]);
      assert ws[last] in ws;
      var w := ws[last].value;
      Uint32FieldSize(1, w.streamId);
      Uint64FieldSize(2, w.appliedThrough);
      Uint64FieldSize(3, w.hubGeneration);
      LenFieldSize(4, EncodeWatermark(w));
    }
  }

  /** Encoded bytes of a hello other than its cluster id. */
  function HelloRest(m: Hello): nat {
    var p := HelloToProto(m);
    |UintField(1, p.nodeId)| + |UintField(2, p.protocolVersion)| + |UintField(3, p.minSupportedVersion)|
    + |EncodeWatermarks(p.subscriptions)| + |UintField(6, p.expectedHubGeneration)|
  }

  lemma HelloRestBound(m: Hello)
    requires |m.subscriptions| <= MAX_SUBSCRIPTIONS
    ensures HelloRest(m) <= 122_910
  {
    hide UintField, EncodeWatermarks;
    var p := HelloToProto(m);
    Uint64FieldSize(1, p.nodeId);
    Uint16FieldSize(2, m.protocol.version);
    Uint16FieldSize(3, m.protocol.minSupported);
    Uint64FieldSize(6, p.expectedHubGeneration);
    WatermarksSize(p.subscriptions);
  }

  function HelloSize(m: Hello): nat {
    |EncodeClientMessage(ProtoClientMessage(HelloBody(m)))|
  }

  /** A hello fits exactly when its cluster id leaves room for its other fields. */
  lemma HelloFitsExactly(m: Hello)
    requires HelloVerdict(m).Pass?
    ensures HelloSize(m) <= MAX_CONTROL_MESSAGE_BYTES <==>
      ByteLength(m.clusterId) + HelloRest(m) + 10 <= MAX_CONTROL_MESSAGE_BYTES
  {
    hide HelloVerdict, UintField, EncodeWatermarks, Utf8, Varint, Blank;
    HelloAcceptedExactly(m);
    HelloRestBound(m);
    var p, n := HelloToProto(m), ByteLength(m.clusterId);
    NonBlankHasBytes(m.clusterId);
    var body := EncodeHello(p);
    assert |body| == HelloRest(m) + 1 + |Varint(n)| + n;
    assert HelloSize(m) == 1 + |Varint(|body|)| + |body|;
    VarintWidths(n);
    VarintWidths(|body|);
    if 0x20_0000 <= n {
      LongVarint(n);
      LongVarint(|body|);
    }
  }

  lemma NonBlankHasBytes(s: string)
    requires !Blank(s)
    ensures 0 < ByteLength(s)
  {
  }

  /** The longest cluster id, in bytes, that every accepted hello can carry. */
  const MAX_CLUSTER_ID: nat := 3_022_808

  /** Every accepted hello whose cluster id respects the guard fits. */
  lemma HelloFits(m: Hello)
    requires HelloVerdict(m).Pass? && ByteLength(m.clusterId) <= MAX_CLUSTER_ID
    ensures HelloSize(m) <= MAX_CONTROL_MESSAGE_BYTES
  {
    HelloAcceptedExactly(m);
    HelloRestBound(m);
    HelloFitsExactly(m);
  }

  /** Full subscriptions: distinct streams whose every field takes its longest encoding. */
  function FullWatermarks(n: nat): (ws: seq<StreamWatermark>)
    requires n <= MAX_SUBSCRIPTIONS
    ensures |ws| == n
    ensures forall i | 0 <= i < n ::
      ws[i] == StreamWatermark(0x1000_0000 + i, 0xFFFF_FFFF_FFFF_FFFF, 0xFFFF_FFFF_FFFF_FFFF)
  {
    seq(n, i requires 0 <= i < n =>
      StreamWatermark(0x1000_0000 + i, 0xFFFF_FFFF_FFFF_FFFF, 0xFFFF_FFFF_FFFF_FFFF))
  }

  lemma LongestVarints(stream: U32)
    requires 0x1000_0000 <= stream
    ensures |Varint(stream)| == 5 && |Varint(0xFFFF_FFFF_FFFF_FFFF)| == 10 && |Varint(0xFFFF)| == 3
  {
    hide Varint, Pow2;
    PowersOf128();
    VarintAtLeast(stream, 4);
    VarintWidths(stream);
    VarintAtLeast(0xFFFF_FFFF_FFFF_FFFF, 9);
    VarintWidths(0xFFFF_FFFF_FFFF_FFFF);
    VarintAtLeast(0xFFFF, 2);
    VarintWidths(0xFFFF);
  }

  lemma {:induction false} FullWatermarksSize(ws: seq<Option<PbStreamWatermark>>)
    requires forall w | w in ws ::
      w.Some? && w.value.streamId >= 0x1000_0000
      && w.value.appliedThrough == w.value.hubGeneration == 0xFFFF_FFFF_FFFF_FFFF
    ensures |EncodeWatermarks(ws)| == 30 * |ws|
    decreases |ws|
  {
    hide UintField, LenField;
    if |ws| > 0 {
      var last := |ws| - 1;
      FullWatermarksSize(ws[..last]);
      assert ws[last] in ws;
      LongestVarints(ws[last].value.streamId);
      FieldSize(1, ws[last].value.streamId);
      FieldSize(2, 0xFFFF_FFFF_FFFF_FFFF);
      FieldSize(3, 0xFFFF_FFFF_FFFF_FFFF);
      LenFieldSize(4, EncodeWatermark(ws[last].value));
    }
  }

  lemma {:induction false} AsciiLength(n: nat)
    ensures ByteLength(seq(n, _ => 'c')) == n
  {
    if n > 0 {
      AsciiLength(n - 1);
      assert seq(n, _ => 'c')[1..] == seq(n - 1, _ => 'c');
    }
  }

  /** The fullest hello with a cluster id of n bytes: 4096 subscriptions, every other field maximal. */
  function FullestHello(n: nat): Hello {
    Hello(0xFFFF_FFFF_FFFF_FFFF, ProtocolRange(0xFFFF, 0xFFFF), FullWatermarks(MAX_SUBSCRIPTIONS), seq(n, _ => 'c'),
          0xFFFF_FFFF_FFFF_FFFF)
  }

  lemma FullestHelloAccepted(n: nat)
    requires 0 < n
    ensures HelloVerdict(FullestHello(n)).Pass? && ByteLength(FullestHello(n).clusterId) == n
  {
    hide HelloVerdict, ByteLength, FullWatermarks;
    var m := FullestHello(n);
    assert m.clusterId[0] in m.clusterId && !IsSpace('c');
    HelloAcceptedExactly(m);
    AsciiLength(n);
  }

  lemma FullestHelloRest(n: nat)
    ensures HelloRest(FullestHello(n)) == 122_910
  {
    hide UintField, EncodeWatermarks, FullWatermarks;
    LongestVarints(0x1000_0000);
    FieldSize(1, 0xFFFF_FFFF_FFFF_FFFF);
    FieldSize(2, 0xFFFF);
    FieldSize(3, 0xFFFF);
    FieldSize(6, 0xFFFF_FFFF_FFFF_FFFF);
    FullWatermarksSize(HelloToProto(FullestHello(n)).subscriptions);
  }

  lemma FullestHelloSize(n: nat)
    requires 0 < n
    ensures HelloSize(FullestHello(n)) <= MAX_CONTROL_MESSAGE_BYTES <==> n <= MAX_CLUSTER_ID
  {
    hide FullestHello, HelloVerdict, HelloSize, HelloRest, ByteLength;
    FullestHelloAccepted(n);
    FullestHelloRest(n);
    HelloFitsExactly(FullestHello(n));
  }

  /**
    The exact guard on the cluster id, which Validate does not check: a length is safe
    for every accepted hello if and only if it is at most MAX_CLUSTER_ID.
  */
  lemma ClusterIdGuardExact(n: nat)
    ensures n <= MAX_CLUSTER_ID <==>
      forall m: Hello | HelloVerdict(m).Pass? && ByteLength(m.clusterId) == n ::
        HelloSize(m) <= MAX_CONTROL_MESSAGE_BYTES
  {
    hide FullestHello, HelloVerdict, HelloSize, ByteLength;
    forall m: Hello | HelloVerdict(m).Pass? && ByteLength(m.clusterId) == n <= MAX_CLUSTER_ID
      ensures HelloSize(m) <= MAX_CONTROL_MESSAGE_BYTES
    {
      HelloFits(m);
    }
    if MAX_CLUSTER_ID < n {
      FullestHelloAccepted(n);
      FullestHelloSize(n);
    }
  }

  /** An accepted hello one byte beyond the guard that does not fit. */
  lemma AcceptedHelloTooLarge() returns (m: Hello)
    ensures HelloVerdict(m).Pass? && ByteLength(m.clusterId) == MAX_CLUSTER_ID + 1
    ensures HelloSize(m) > MAX_CONTROL_MESSAGE_BYTES
  {
    hide FullestHello, HelloVerdict, HelloSize, ByteLength;
    m := FullestHello(MAX_CLUSTER_ID + 1);
    FullestHelloAccepted(MAX_CLUSTER_ID + 1);
    FullestHelloSize(MAX_CLUSTER_ID + 1);
  }

  // ---------- Every other message ----------

  lemma ScalarSizes(a: U32, b: U64, c: U64, d: U64, e: U64)
    ensures |UintField(1, a)| <= 6
    ensures |UintField(2, b)| <= 11
    ensures |UintField(3, c)| <= 11
    ensures |UintField(4, d)| <= 11
    ensures |UintField(5, e)| <= 11
  {
    Uint32FieldSize(1, a);
    Uint64FieldSize(2, b);
    Uint64FieldSize(3, c);
    Uint64FieldSize(4, d);
    Uint64FieldSize(5, e);
  }

  /** Every other accepted client message fits, with up to 4096 subscriptions. */
  lemma ClientMessageFits(b: ClientBody)
    requires b.Verdict().Pass? && !b.HelloBody?
    ensures |EncodeClientMessage(ProtoClientMessage(b))| <= 20_506
  {
    hide UintField, Varints, LenField;
    var p := ProtoClientMessage(b).body.value;
    match p
    case PbSubscribeBody(m) =>
      SubscribeAcceptedExactly(b.subscribe);
      Uint64FieldSize(1, m.value.hubGeneration);
      VarintsSize(m.value.streamIds);
      LenFieldSize(2, Varints(m.value.streamIds));
      LenFieldSize(2, EncodeSubscribe(m.value));
    case PbAcknowledgementBody(m) =>
      ScalarSizes(m.value.streamId, m.value.appliedThrough, 0, 0, 0);
      LenFieldSize(3, EncodeAcknowledgement(m.value));
    case PbReplayRequestBody(m) =>
      ScalarSizes(m.value.streamId, m.value.fromSequence, m.value.toSequence, 0, 0);
      LenFieldSize(4, EncodeReplayRequest(m.value));
    case PbConfirmBody(m) =>
      ScalarSizes(m.value.streamId, m.value.streamSequence, m.value.nodeId, 0, 0);
      LenFieldSize(5, EncodeConfirm(m.value));
  }

  /** Every other accepted server message fits. */
  lemma ServerMessageFits(b: Server)
    requires ServerVerdict(b).Pass? && !b.BatchBody?
    ensures |EncodeServerMessage(ProtoServerMessage(b))| <= 264
  {
    hide UintField, LenField, Utf8;
    var p := ProtoServerMessage(b).body.value;
    match p
    case PbCheckpointBody(m) =>
      ScalarSizes(m.value.streamId, m.value.hubGeneration, m.value.streamHead, 0, 0);
      LenFieldSize(2, EncodeCheckpoint(m.value));
    case PbReplayUnavailableBody(m) =>
      ScalarSizes(m.value.streamId, m.value.hubGeneration, m.value.requestedFrom, m.value.oldestAvailable,
                  m.value.streamHead);
      LenFieldSize(3, EncodeReplayUnavailable(m.value));
    case PbControlErrorBody(m) =>
      SmallEnumField(1, m.value.status);
      LenFieldSize(2, Utf8(m.value.detail));
      LenFieldSize(4, EncodeControlError(m.value));
  }
}
