/**
  The encoding of control messages loses nothing: a message is determined by its
  bytes. So the size promises speak of encodings that carry every field.
*/
module ControlDecodable {
  import opened Words
  import opened Outcomes
  import opened Text
  import opened Control
  import opened ControlProto
  import opened ProtoEncoding
  import opened ProtoDecodable
  import opened ControlSize

  // ---------- Messages of scalar fields ----------

  lemma NoMore(b: Bytes)
    ensures b + [] == b
  {
  }

  /** The first fields of a message read back, and what follows them. */
  lemma ScalarsDecodable(vs: seq<nat>, vs': seq<nat>)
    requires |vs| == |vs'| < 16 && Uints(1, vs) == Uints(1, vs')
    ensures vs == vs'
  {
    NoMore(Uints(1, vs));
    NoMore(Uints(1, vs'));
    UintsDecodable(1, vs, vs', [], []);
  }

  lemma UintsStep(f: nat, v: nat, vs: seq<nat>)
    ensures Uints(f, [v] + vs) == UintField(f, v) + Uints(f + 1, vs)
    ensures Uints(f, []) == []
  {
    assert ([v] + vs)[1..] == vs;
  }

  lemma UintsOfTwo(a: nat, b: nat)
    ensures Uints(1, [a, b]) == UintField(1, a) + UintField(2, b)
  {
    hide UintField;
    assert [a, b] == [a] + ([b] + []);
    UintsStep(1, a, [b] + []);
    UintsStep(2, b, []);
    NoMore(UintField(2, b));
  }

  lemma UintsOfThree(a: nat, b: nat, c: nat)
    ensures Uints(1, [a, b, c]) == UintField(1, a) + UintField(2, b) + UintField(3, c)
  {
    hide UintField;
    assert [a, b, c] == [a] + ([b] + ([c] + []));
    UintsStep(1, a, [b] + ([c] + []));
    UintsStep(2, b, [c] + []);
    UintsStep(3, c, []);
    NoMore(UintField(3, c));
    assert Uints(2, [b] + ([c] + [])) == UintField(2, b) + UintField(3, c);
  }

  lemma UintsOfFive(a: nat, b: nat, c: nat, d: nat, e: nat)
    ensures Uints(1, [a, b, c, d, e])
      == UintField(1, a) + UintField(2, b) + UintField(3, c) + UintField(4, d) + UintField(5, e)
  {
    hide UintField;
    assert [a, b, c, d, e] == [a] + ([b] + ([c] + ([d] + ([e] + []))));
    UintsStep(1, a, [b] + ([c] + ([d] + ([e] + []))));
    UintsStep(2, b, [c] + ([d] + ([e] + [])));
    UintsStep(3, c, [d] + ([e] + []));
    UintsStep(4, d, [e] + []);
    UintsStep(5, e, []);
    NoMore(UintField(5, e));
    assert Uints(4, [d] + ([e] + [])) == UintField(4, d) + UintField(5, e);
  }

  lemma TwoDecodable(a: nat, b: nat, a': nat, b': nat)
    requires UintField(1, a) + UintField(2, b) == UintField(1, a') + UintField(2, b')
    ensures a == a' && b == b'
  {
    hide UintField;
    UintsOfTwo(a, b);
    UintsOfTwo(a', b');
    ScalarsDecodable([a, b], [a', b']);
    assert [a, b][0] == [a', b'][0] && [a, b][1] == [a', b'][1];
  }

  lemma ThreeDecodable(a: nat, b: nat, c: nat, a': nat, b': nat, c': nat)
    requires UintField(1, a) + UintField(2, b) + UintField(3, c)
      == UintField(1, a') + UintField(2, b') + UintField(3, c')
    ensures a == a' && b == b' && c == c'
  {
    hide UintField;
    UintsOfThree(a, b, c);
    UintsOfThree(a', b', c');
    var vs, vs' := [a, b, c], [a', b', c'];
    ScalarsDecodable(vs, vs');
    assert vs[0] == vs'[0] && vs[1] == vs'[1] && vs[2] == vs'[2];
  }

  lemma ReplayUnavailableDecodable(p: PbReplayUnavailable, q: PbReplayUnavailable)
    requires EncodeReplayUnavailable(p) == EncodeReplayUnavailable(q)
    ensures p == q
  {
    hide UintField;
    UintsOfFive(p.streamId, p.hubGeneration, p.requestedFrom, p.oldestAvailable, p.streamHead);
    UintsOfFive(q.streamId, q.hubGeneration, q.requestedFrom, q.oldestAvailable, q.streamHead);
    var vs := [p.streamId, p.hubGeneration, p.requestedFrom, p.oldestAvailable, p.streamHead];
    var vs' := [q.streamId, q.hubGeneration, q.requestedFrom, q.oldestAvailable, q.streamHead];
    ScalarsDecodable(vs, vs');
    assert vs[0] == vs'[0] && vs[1] == vs'[1] && vs[2] == vs'[2] && vs[3] == vs'[3] && vs[4] == vs'[4];
  }

  lemma ControlErrorDecodable(p: PbControlError, q: PbControlError)
    requires EncodeControlError(p) == EncodeControlError(q)
    ensures p == q
  {
    hide EnumField, BytesField, Utf8;
    var s, s' := Utf8(p.detail), Utf8(q.detail);
    NoMore(BytesField(2, s));
    NoMore(BytesField(2, s'));
    BeyondBytes(1, 2, s, []);
    BeyondBytes(1, 2, s', []);
    EnumDecodable(1, p.status, q.status, BytesField(2, s), BytesField(2, s'));
    BytesDecodable(2, s, s', [], []);
    Utf8Decodable(p.detail, q.detail);
  }

  // ---------- Batches ----------

  lemma VersionDecodable(p: PbVersionTag, q: PbVersionTag)
    requires EncodeVersionTag(p) == EncodeVersionTag(q)
    ensures p == q
  {
    TwoDecodable(p.partitionId, p.sequence, q.partitionId, q.sequence);
  }

  lemma IdDecodable(p: Bytes, q: Bytes)
    requires EncodeMutationId(p) == EncodeMutationId(q)
    ensures p == q
  {
    hide BytesField;
    NoMore(BytesField(1, p));
    NoMore(BytesField(1, q));
    BytesDecodable(1, p, q, [], []);
  }

  /** What follows each field of an event. */
  function AfterKind(p: PbEvent): Bytes { OptionalField(5, p.mutationId, EncodeMutationId) }
  function AfterVersion(p: PbEvent): Bytes { EnumField(4, p.kind) + AfterKind(p) }
  function AfterKey(p: PbEvent): Bytes { OptionalField(3, p.version, EncodeVersionTag) + AfterVersion(p) }
  function AfterSequence(p: PbEvent): Bytes { BytesField(2, p.key) + AfterKey(p) }

  lemma EventFromFront(p: PbEvent)
    ensures EncodeEvent(p) == UintField(1, p.streamSequence) + AfterSequence(p)
    ensures AfterKind(p) == AfterKind(p) + []
    ensures Beyond(4, AfterKind(p)) && Beyond(3, AfterVersion(p))
    ensures Beyond(2, AfterKey(p)) && Beyond(1, AfterSequence(p))
  {
    hide UintField, EnumField, BytesField, OptionalField, EncodeVersionTag, EncodeMutationId;
    NoMore(AfterKind(p));
    BeyondOptional(4, 5, p.mutationId, EncodeMutationId, []);
    BeyondEnum(3, 4, p.kind, AfterKind(p));
    BeyondOptional(2, 3, p.version, EncodeVersionTag, AfterVersion(p));
    BeyondBytes(1, 2, p.key, AfterKey(p));
  }

  lemma EventDecodable(p: PbEvent, q: PbEvent)
    requires EncodeEvent(p) == EncodeEvent(q)
    ensures p == q
  {
    hide UintField, EnumField, BytesField, OptionalField, EncodeVersionTag, EncodeMutationId, EncodeEvent;
    EventFromFront(p);
    EventFromFront(q);
    UintDecodable(1, p.streamSequence, q.streamSequence, AfterSequence(p), AfterSequence(q));
    BytesDecodable(2, p.key, q.key, AfterKey(p), AfterKey(q));
    OptionalDecodable(3, p.version, q.version, EncodeVersionTag, AfterVersion(p), AfterVersion(q));
    EnumDecodable(4, p.kind, q.kind, AfterKind(p), AfterKind(q));
    OptionalDecodable(5, p.mutationId, q.mutationId, EncodeMutationId, [], []);
    if p.version.Some? {
      VersionDecodable(p.version.value, q.version.value);
    }
    if p.mutationId.Some? {
      IdDecodable(p.mutationId.value, q.mutationId.value);
    }
  }

  lemma BatchDecodable(p: PbBatch, q: PbBatch)
    requires AllSet(p.events) && AllSet(q.events) && EncodeBatch(p) == EncodeBatch(q)
    ensures p == q
  {
    hide UintField, RepeatedField, EncodeEvent;
    var es, es' := EncodeEvents(p.events), EncodeEvents(q.events);
    UintsOfTwo(p.streamId, p.hubGeneration);
    UintsOfTwo(q.streamId, q.hubGeneration);
    NoMore(es);
    NoMore(es');
    BeyondRepeated(2, 3, p.events, EncodeEvent, []);
    BeyondRepeated(2, 3, q.events, EncodeEvent, []);
    var vs, vs' := [p.streamId, p.hubGeneration], [q.streamId, q.hubGeneration];
    UintsDecodable(1, vs, vs', es, es');
    assert vs[0] == vs'[0] && vs[1] == vs'[1];
    RepeatedDecodable(3, p.events, q.events, EncodeEvent, [], []);
    forall i | 0 <= i < |p.events|
      ensures p.events[i] == q.events[i]
    {
      EventDecodable(p.events[i].value, q.events[i].value);
    }
  }

  // ---------- Hello and Subscribe ----------

  lemma WatermarkDecodable(p: PbStreamWatermark, q: PbStreamWatermark)
    requires EncodeWatermark(p) == EncodeWatermark(q)
    ensures p == q
  {
    ThreeDecodable(p.streamId, p.appliedThrough, p.hubGeneration, q.streamId, q.appliedThrough, q.hubGeneration);
  }

  /** What follows each field of a hello. */
  function AfterClusterId(p: PbHello): Bytes { UintField(6, p.expectedHubGeneration) }
  function AfterSubscriptions(p: PbHello): Bytes { StringField(5, p.clusterId) + AfterClusterId(p) }
  function AfterVersions(p: PbHello): Bytes { EncodeWatermarks(p.subscriptions) + AfterSubscriptions(p) }

  lemma HelloFromFront(p: PbHello)
    requires AllSet(p.subscriptions)
    ensures EncodeHello(p) == Uints(1, [p.nodeId, p.protocolVersion, p.minSupportedVersion]) + AfterVersions(p)
    ensures AfterClusterId(p) == AfterClusterId(p) + []
    ensures Beyond(5, AfterClusterId(p)) && Beyond(4, AfterSubscriptions(p)) && Beyond(3, AfterVersions(p))
  {
    hide UintField, BytesField, RepeatedField, EncodeWatermark, Uints;
    NoMore(AfterClusterId(p));
    UintsOfThree(p.nodeId, p.protocolVersion, p.minSupportedVersion);
    BeyondUint(5, 6, p.expectedHubGeneration, []);
    BeyondBytes(4, 5, Utf8(p.clusterId), AfterClusterId(p));
    BeyondRepeated(3, 4, p.subscriptions, EncodeWatermark, AfterSubscriptions(p));
  }

  lemma HelloDecodable(p: PbHello, q: PbHello)
    requires AllSet(p.subscriptions) && AllSet(q.subscriptions) && EncodeHello(p) == EncodeHello(q)
    ensures p == q
  {
    hide UintField, BytesField, RepeatedField, EncodeWatermark, Uints, EncodeHello, Utf8;
    HelloFromFront(p);
    HelloFromFront(q);
    var vs := [p.nodeId, p.protocolVersion, p.minSupportedVersion];
    var vs' := [q.nodeId, q.protocolVersion, q.minSupportedVersion];
    UintsDecodable(1, vs, vs', AfterVersions(p), AfterVersions(q));
    assert vs[0] == vs'[0] && vs[1] == vs'[1] && vs[2] == vs'[2];
    RepeatedDecodable(4, p.subscriptions, q.subscriptions, EncodeWatermark,
                      AfterSubscriptions(p), AfterSubscriptions(q));
    BytesDecodable(5, Utf8(p.clusterId), Utf8(q.clusterId), AfterClusterId(p), AfterClusterId(q));
    Utf8Decodable(p.clusterId, q.clusterId);
    UintDecodable(6, p.expectedHubGeneration, q.expectedHubGeneration, [], []);
    forall i | 0 <= i < |p.subscriptions|
      ensures p.subscriptions[i] == q.subscriptions[i]
    {
      WatermarkDecodable(p.subscriptions[i].value, q.subscriptions[i].value);
    }
  }

  lemma SubscribeDecodable(p: PbSubscribe, q: PbSubscribe)
    requires EncodeSubscribe(p) == EncodeSubscribe(q)
    ensures p == q
  {
    hide UintField, BytesField, Varints;
    var s, s' := PackedField(2, p.streamIds), PackedField(2, q.streamIds);
    NoMore(s);
    NoMore(s');
    BeyondBytes(1, 2, Varints(p.streamIds), []);
    BeyondBytes(1, 2, Varints(q.streamIds), []);
    UintDecodable(1, p.hubGeneration, q.hubGeneration, s, s');
    BytesDecodable(2, Varints(p.streamIds), Varints(q.streamIds), [], []);
    VarintsDecodable(p.streamIds, q.streamIds);
  }

  // ---------- Envelopes ----------

  /** One-record messages are equal as bytes exactly in field number and payload. */
  lemma RecordDecodable(f: nat, p: Bytes, g: nat, q: Bytes)
    requires f < 16 && g < 16 && LenField(f, p) == LenField(g, q)
    ensures f == g && p == q
  {
    hide LenField;
    NoMore(LenField(f, p));
    NoMore(LenField(g, q));
    LenStarts(f, p, []);
    LenStarts(g, q, []);
    assert (LenField(f, p) + [])[0] == 8 * f + 2 && (LenField(g, q) + [])[0] == 8 * g + 2;
    LenDecodable(f, p, q, [], []);
  }

  /** No nil pointer inside the oneof or a list, as conversion builds them. */
  predicate ServerComplete(m: PbServerMessage<Bytes>) {
    m.body.Some? ==>
      match m.body.value
      case PbBatchBody(b) => b.Some? && AllSet(b.value.events)
      case PbCheckpointBody(c) => c.Some?
      case PbReplayUnavailableBody(r) => r.Some?
      case PbControlErrorBody(e) => e.Some?
  }

  predicate ClientComplete(m: PbClientMessage) {
    m.body.Some? ==>
      match m.body.value
      case PbHelloBody(h) => h.Some? && AllSet(h.value.subscriptions)
      case PbSubscribeBody(s) => s.Some?
      case PbAcknowledgementBody(a) => a.Some?
      case PbReplayRequestBody(r) => r.Some?
      case PbConfirmBody(c) => c.Some?
  }

  /** The one record of a server envelope. */
  function ServerRecord(b: PbServerBody<Bytes>): (nat, Bytes)
    requires ServerComplete(PbServerMessage(Some(b)))
  {
    match b
    case PbBatchBody(m) => (1, EncodeBatch(m.value))
    case PbCheckpointBody(m) => (2, EncodeCheckpoint(m.value))
    case PbReplayUnavailableBody(m) => (3, EncodeReplayUnavailable(m.value))
    case PbControlErrorBody(m) => (4, EncodeControlError(m.value))
  }

  function ClientRecord(b: PbClientBody): (nat, Bytes)
    requires ClientComplete(PbClientMessage(Some(b)))
  {
    match b
    case PbHelloBody(m) => (1, EncodeHello(m.value))
    case PbSubscribeBody(m) => (2, EncodeSubscribe(m.value))
    case PbAcknowledgementBody(m) => (3, EncodeAcknowledgement(m.value))
    case PbReplayRequestBody(m) => (4, EncodeReplayRequest(m.value))
    case PbConfirmBody(m) => (5, EncodeConfirm(m.value))
  }

  lemma ServerBodyDecodable(a: PbServerBody<Bytes>, b: PbServerBody<Bytes>)
    requires ServerComplete(PbServerMessage(Some(a))) && ServerComplete(PbServerMessage(Some(b)))
    requires ServerRecord(a) == ServerRecord(b)
    ensures a == b
  {
    hide EncodeBatch, EncodeReplayUnavailable, EncodeControlError, UintField;
    match a
    case PbBatchBody(m) => BatchDecodable(m.value, b.batch.value);
    case PbCheckpointBody(m) =>
      var p, q := m.value, b.checkpoint.value;
      ThreeDecodable(p.streamId, p.hubGeneration, p.streamHead, q.streamId, q.hubGeneration, q.streamHead);
    case PbReplayUnavailableBody(m) => ReplayUnavailableDecodable(m.value, b.replayUnavailable.value);
    case PbControlErrorBody(m) => ControlErrorDecodable(m.value, b.controlError.value);
  }

  lemma ClientBodyDecodable(a: PbClientBody, b: PbClientBody)
    requires ClientComplete(PbClientMessage(Some(a))) && ClientComplete(PbClientMessage(Some(b)))
    requires ClientRecord(a) == ClientRecord(b)
    ensures a == b
  {
    hide EncodeHello, EncodeSubscribe, UintField;
    match a
    case PbHelloBody(m) => HelloDecodable(m.value, b.hello.value);
    case PbSubscribeBody(m) => SubscribeDecodable(m.value, b.subscribe.value);
    case PbAcknowledgementBody(m) =>
      var p, q := m.value, b.acknowledgement.value;
      TwoDecodable(p.streamId, p.appliedThrough, q.streamId, q.appliedThrough);
    case PbReplayRequestBody(m) =>
      var p, q := m.value, b.replayRequest.value;
      ThreeDecodable(p.streamId, p.fromSequence, p.toSequence, q.streamId, q.fromSequence, q.toSequence);
    case PbConfirmBody(m) =>
      var p, q := m.value, b.confirm.value;
      ThreeDecodable(p.streamId, p.streamSequence, p.nodeId, q.streamId, q.streamSequence, q.nodeId);
  }

  lemma RecordNotEmpty(f: nat, p: Bytes)
    requires f < 16
    ensures LenField(f, p) != []
  {
  }

  /** A server envelope is determined by its bytes: no field of any message is lost. */
  lemma ServerEnvelopeDecodable(p: PbServerMessage<Bytes>, q: PbServerMessage<Bytes>)
    requires ServerComplete(p) && ServerComplete(q) && EncodeServerMessage(p) == EncodeServerMessage(q)
    ensures p == q
  {
    hide LenField, EncodeBatch, EncodeCheckpoint, EncodeReplayUnavailable, EncodeControlError;
    if p.body.Some? {
      var r := ServerRecord(p.body.value);
      RecordNotEmpty(r.0, r.1);
    }
    if q.body.Some? {
      var r := ServerRecord(q.body.value);
      RecordNotEmpty(r.0, r.1);
    }
    if p.body.Some? && q.body.Some? {
      var r, s := ServerRecord(p.body.value), ServerRecord(q.body.value);
      RecordDecodable(r.0, r.1, s.0, s.1);
      ServerBodyDecodable(p.body.value, q.body.value);
    }
  }

  lemma ClientEnvelopeDecodable(p: PbClientMessage, q: PbClientMessage)
    requires ClientComplete(p) && ClientComplete(q) && EncodeClientMessage(p) == EncodeClientMessage(q)
    ensures p == q
  {
    hide LenField, EncodeHello, EncodeSubscribe, EncodeAcknowledgement, EncodeReplayRequest, EncodeConfirm;
    if p.body.Some? {
      var r := ClientRecord(p.body.value);
      RecordNotEmpty(r.0, r.1);
    }
    if q.body.Some? {
      var r := ClientRecord(q.body.value);
      RecordNotEmpty(r.0, r.1);
    }
    if p.body.Some? && q.body.Some? {
      var r, s := ClientRecord(p.body.value), ClientRecord(q.body.value);
      RecordDecodable(r.0, r.1, s.0, s.1);
      ClientBodyDecodable(p.body.value, q.body.value);
    }
  }

  // ---------- Domain messages ----------

  lemma ProtoBatchInjective(a: InvalidationBatch, b: InvalidationBatch)
    requires ProtoBatch(a) == ProtoBatch(b)
    ensures a == b
  {
    var ps := ProtoEvents(a.events);
    forall i | 0 <= i < |ps|
      ensures a.events[i] == b.events[i]
    {
      assert ps[i] == Some(ProtoEvent(a.events[i])) == Some(ProtoEvent(b.events[i]));
    }
  }

  lemma HelloToProtoInjective(a: Hello, b: Hello)
    requires HelloToProto(a) == HelloToProto(b)
    ensures a == b
  {
    var ps := HelloToProto(a).subscriptions;
    forall i | 0 <= i < |ps|
      ensures a.subscriptions[i] == b.subscriptions[i]
    {
      assert ps[i] == Some(ProtoWatermark(a.subscriptions[i])) == Some(ProtoWatermark(b.subscriptions[i]));
    }
  }

  /** Different server messages, valid or not, never encode alike. */
  lemma ServerEncodingInjective(a: Server, b: Server)
    ensures EncodeServerMessage(ProtoServerMessage(a)) == EncodeServerMessage(ProtoServerMessage(b)) <==> a == b
  {
    hide EncodeServerMessage;
    if EncodeServerMessage(ProtoServerMessage(a)) == EncodeServerMessage(ProtoServerMessage(b)) {
      ServerEnvelopeDecodable(ProtoServerMessage(a), ProtoServerMessage(b));
      if a.BatchBody? {
        ProtoBatchInjective(a.batch, b.batch);
      }
    }
  }

  /** Different client messages, valid or not, never encode alike. */
  lemma ClientEncodingInjective(a: ClientBody, b: ClientBody)
    ensures EncodeClientMessage(ProtoClientMessage(a)) == EncodeClientMessage(ProtoClientMessage(b)) <==> a == b
  {
    hide EncodeClientMessage;
    if EncodeClientMessage(ProtoClientMessage(a)) == EncodeClientMessage(ProtoClientMessage(b)) {
      ClientEnvelopeDecodable(ProtoClientMessage(a), ProtoClientMessage(b));
      if a.HelloBody? {
        HelloToProtoInjective(a.hello, b.hello);
      }
    }
  }

  /** Why nil is excluded from an envelope: on the wire a nil body is an empty one. */
  lemma NilEncodesAsEmpty()
    ensures EncodeServerMessage(PbServerMessage(Some(PbCheckpointBody(None))))
      == EncodeServerMessage(PbServerMessage(Some(PbCheckpointBody(Some(PbStreamCheckpoint(0, 0, 0))))))
  {
  }
}
