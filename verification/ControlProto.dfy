/**
  Control-plane conversion (internal/control/convert.go) between domain values
  and protobuf messages. A nil pointer is None. Keys and ids are byte values
  here; ControlHeap relates the buffers that hold them.
*/
module ControlProto {
  import opened Words
  import opened Outcomes
  import opened Wire
  import opened Control

  // ---------- Protobuf messages (api/proto/gossipcache/v1) ----------

  datatype PbVersionTag = PbVersionTag(partitionId: U32, sequence: U64)

  /** mutationId is the id field of the MutationID message, or None for a nil message. */
  datatype PbInvalidationEvent<+B> = PbInvalidationEvent(
    streamSequence: U64, key: B, version: Option<PbVersionTag>, kind: I32, mutationId: Option<B>)

  datatype PbInvalidationBatch<+B> = PbInvalidationBatch(
    streamId: U32, hubGeneration: U64, events: seq<Option<PbInvalidationEvent<B>>>)

  type PbEvent = PbInvalidationEvent<Bytes>
  type PbBatch = PbInvalidationBatch<Bytes>

  datatype PbStreamWatermark = PbStreamWatermark(streamId: U32, appliedThrough: U64, hubGeneration: U64)
  datatype PbHello = PbHello(
    nodeId: U64, protocolVersion: U32, minSupportedVersion: U32, subscriptions: seq<Option<PbStreamWatermark>>,
    clusterId: string, expectedHubGeneration: U64)
  datatype PbSubscribe = PbSubscribe(hubGeneration: U64, streamIds: seq<U32>)
  datatype PbStreamAcknowledgement = PbStreamAcknowledgement(streamId: U32, appliedThrough: U64)
  datatype PbReplayRequest = PbReplayRequest(streamId: U32, fromSequence: U64, toSequence: U64)
  datatype PbInvalidateConfirm = PbInvalidateConfirm(streamId: U32, streamSequence: U64, nodeId: U64)
  datatype PbStreamCheckpoint = PbStreamCheckpoint(streamId: U32, hubGeneration: U64, streamHead: U64)
  datatype PbReplayUnavailable = PbReplayUnavailable(
    streamId: U32, hubGeneration: U64, requestedFrom: U64, oldestAvailable: U64, streamHead: U64)
  datatype PbControlError = PbControlError(status: I32, detail: string)

  datatype PbClientBody =
    | PbHelloBody(hello: Option<PbHello>)
    | PbSubscribeBody(subscribe: Option<PbSubscribe>)
    | PbAcknowledgementBody(acknowledgement: Option<PbStreamAcknowledgement>)
    | PbReplayRequestBody(replayRequest: Option<PbReplayRequest>)
    | PbConfirmBody(confirm: Option<PbInvalidateConfirm>)

  /** B holds keys and ids, as in the batch. */
  datatype PbServerBody<+B> =
    | PbBatchBody(batch: Option<PbInvalidationBatch<B>>)
    | PbCheckpointBody(checkpoint: Option<PbStreamCheckpoint>)
    | PbReplayUnavailableBody(replayUnavailable: Option<PbReplayUnavailable>)
    | PbControlErrorBody(controlError: Option<PbControlError>)

  /** The envelopes: a oneof that may be unset. */
  datatype PbClientMessage = PbClientMessage(body: Option<PbClientBody>)
  datatype PbServerMessage<+B> = PbServerMessage(body: Option<PbServerBody<B>>)

  // ---------- Enumerations and identities ----------

  function MutationIdFromProto(m: Option<Bytes>): Result<MutationId> {
    match m
    case None => Failure(MutationIdRequired)
    case Some(raw) =>
      if |raw| == 0 then Failure(MutationIdRequired)
      else if |raw| != 16 then Failure(MutationIdLength)
      else Success(raw)
  }

  function RecordKindFromProto(k: I32): Result<U8> {
    if k == 0 then Success(RECORD_VALUE)
    else if k == 1 then Success(RECORD_TOMBSTONE)
    else Failure(InvalidRecordKind)
  }

  function StatusFromProto(s: I32): Result<U16> {
    if 0 <= s <= 8 then Success(s) else Failure(InvalidControlStatus)
  }

  function ProtocolVersionFromUint32(v: U32): Result<U16> {
    if v > 0xFFFF then Failure(InvalidProtocolRange) else Success(v)
  }

  // ---------- Invalidation batches ----------

  function ProtoEvent(e: Event): PbEvent {
    PbInvalidationEvent(e.streamSequence, e.key, Some(PbVersionTag(e.version.partitionId, e.version.sequence)),
                        e.kind, Some(e.mutationId))
  }

  function ProtoEvents(es: seq<Event>): (ps: seq<Option<PbEvent>>)
    ensures |ps| == |es| && forall i | 0 <= i < |es| :: ps[i] == Some(ProtoEvent(es[i]))
  {
    seq(|es|, i requires 0 <= i < |es| => Some(ProtoEvent(es[i])))
  }

  function ProtoBatch(m: InvalidationBatch): PbBatch {
    PbInvalidationBatch(m.streamId, m.hubGeneration, ProtoEvents(m.events))
  }

  function VersionFromProto(v: Option<PbVersionTag>): VersionTag {
    match v
    case None => VersionTag(0, 0)
    case Some(t) => VersionTag(t.partitionId, t.sequence)
  }

  function FromProtoEvent(p: Option<PbEvent>): Result<Event> {
    if p.None? then Failure(InvalidMessage)
    else
      var id :- MutationIdFromProto(p.value.mutationId);
      var kind :- RecordKindFromProto(p.value.kind);
      Success(InvalidationEvent(p.value.streamSequence, p.value.key, VersionFromProto(p.value.version), kind, id))
  }

  /** The decoding loop over the first n events. */
  function FromProtoEvents(events: seq<Option<PbEvent>>, n: nat): (r: Result<seq<Event>>)
    requires n <= |events|
    ensures r.Success? ==> |r.value| == n
    decreases n
  {
    if n == 0 then Success([])
    else
      var before :- FromProtoEvents(events, n - 1);
      var event :- FromProtoEvent(events[n - 1]);
      Success(before + [event])
  }

  function FromProtoBatch(p: Option<PbBatch>): Result<InvalidationBatch> {
    if p.None? then Failure(InvalidMessage)
    else
      var events :- FromProtoEvents(p.value.events, |p.value.events|);
      var out := InvalidationBatch(p.value.streamId, p.value.hubGeneration, events);
      Checked(out, BatchVerdict(out))
  }

  /** Decoding succeeds exactly when every event decodes, and then event by event. */
  lemma {:induction false} FromProtoEventsAt(events: seq<Option<PbEvent>>, n: nat)
    requires n <= |events|
    ensures FromProtoEvents(events, n).Success? <==> forall i | 0 <= i < n :: FromProtoEvent(events[i]).Success?
    ensures FromProtoEvents(events, n).Success? ==>
      forall i | 0 <= i < n :: FromProtoEvent(events[i]) == Success(FromProtoEvents(events, n).value[i])
    decreases n
  {
    if n > 0 {
      FromProtoEventsAt(events, n - 1);
    }
  }

  /** Which error an event gets on decoding, and that it gets none exactly with a 16-byte id and a known kind. */
  lemma EventDecodeErrors(p: Option<PbEvent>)
    ensures FromProtoEvent(p) == Failure(InvalidMessage) <==> p.None?
    ensures FromProtoEvent(p) == Failure(MutationIdRequired) <==>
      p.Some? && (p.value.mutationId.None? || p.value.mutationId.value == [])
    ensures FromProtoEvent(p) == Failure(MutationIdLength) <==>
      p.Some? && p.value.mutationId.Some? && |p.value.mutationId.value| !in {0, 16}
    ensures FromProtoEvent(p) == Failure(InvalidRecordKind) <==>
      p.Some? && p.value.mutationId.Some? && |p.value.mutationId.value| == 16 && p.value.kind !in {0, 1}
    ensures FromProtoEvent(p).Success? <==>
      p.Some? && p.value.mutationId.Some? && |p.value.mutationId.value| == 16 && p.value.kind in {0, 1}
  {
  }

  /** A batch that fails to decode reports its first undecodable event. */
  lemma {:induction false} DecodeErrorNamesFirst(events: seq<Option<PbEvent>>, n: nat) returns (i: nat)
    requires n <= |events| && FromProtoEvents(events, n).Failure?
    ensures i < n && FromProtoEvent(events[i]) == Failure(FromProtoEvents(events, n).error)
    ensures forall j | 0 <= j < i :: FromProtoEvent(events[j]).Success?
    decreases n
  {
    hide FromProtoEvent;
    if FromProtoEvents(events, n - 1).Failure? {
      i := DecodeErrorNamesFirst(events, n - 1);
    } else {
      i := n - 1;
      FromProtoEventsAt(events, n - 1);
    }
  }

  lemma EventRoundTrip(e: Event)
    ensures FromProtoEvent(Some(ProtoEvent(e))) ==
      if e.kind in {RECORD_VALUE, RECORD_TOMBSTONE} then Success(e) else Failure(InvalidRecordKind)
  {
  }

  /** Encoding then decoding accepts exactly the valid batches, and returns them. */
  lemma BatchRoundTrip(m: InvalidationBatch)
    ensures FromProtoBatch(Some(ProtoBatch(m))).Success? <==> BatchVerdict(m).Pass?
    ensures BatchVerdict(m).Pass? ==> FromProtoBatch(Some(ProtoBatch(m))) == Success(m)
  {
    var p := ProtoBatch(m).events;
    FromProtoEventsAt(p, |p|);
    forall i | 0 <= i < |p|
      ensures FromProtoEvent(p[i]) == if ValidRecordKind(m.events[i].kind) then Success(m.events[i])
                                      else Failure(InvalidRecordKind)
    {
      EventRoundTrip(m.events[i]);
    }
    BatchAccepted(m);
    if FromProtoEvents(p, |p|).Success? {
      assert FromProtoEvents(p, |p|).value == m.events;
    } else {
      var i :| 0 <= i < |p| && FromProtoEvent(p[i]).Failure?;
      assert m.events[i] in m.events && !ValidEvent(m.events[i], m.streamId);
    }
  }

  lemma EventNotNarrowed(p: Option<PbEvent>, e: Event, streamId: U32)
    requires FromProtoEvent(p) == Success(e) && ValidEvent(e, streamId)
    ensures Some(ProtoEvent(e)) == p
  {
  }

  /** A decoded batch re-encodes to the very fields it was decoded from: nothing was narrowed. */
  lemma BatchNotNarrowed(p: PbBatch)
    requires FromProtoBatch(Some(p)).Success?
    ensures ProtoBatch(FromProtoBatch(Some(p)).value) == p
  {
    hide FromProtoEvent, ValidEvent, EventVerdict, ProtoEvent, EstimatedSize, Contiguous;
    var m := FromProtoBatch(Some(p)).value;
    FromProtoEventsAt(p.events, |p.events|);
    BatchAccepted(m);
    forall i | 0 <= i < |p.events|
      ensures Some(ProtoEvent(m.events[i])) == p.events[i]
    {
      assert m.events[i] in m.events;
      EventNotNarrowed(p.events[i], m.events[i], m.streamId);
    }
    assert ProtoBatch(m).events == p.events;
  }

  // ---------- Hello ----------

  function ProtoWatermark(s: StreamWatermark): PbStreamWatermark {
    PbStreamWatermark(s.streamId, s.appliedThrough, s.hubGeneration)
  }

  function HelloToProto(m: Hello): PbHello {
    PbHello(m.nodeId, m.protocol.version, m.protocol.minSupported,
      seq(|m.subscriptions|, i requires 0 <= i < |m.subscriptions| => Some(ProtoWatermark(m.subscriptions[i]))),
      m.clusterId, m.expectedHubGeneration)
  }

  method ProtoHello(m: Hello) returns (out: PbHello)
    ensures out == HelloToProto(m)
  {
    out := PbHello(m.nodeId, m.protocol.version, m.protocol.minSupported, [], m.clusterId, m.expectedHubGeneration);
    for i := 0 to |m.subscriptions|
      invariant out == HelloToProto(m).(subscriptions := HelloToProto(m).subscriptions[..i])
    {
      out := out.(subscriptions := out.subscriptions + [Some(ProtoWatermark(m.subscriptions[i]))]);
    }
  }

  /** The decoding loop over the first n watermarks. */
  function WatermarksFromProto(ps: seq<Option<PbStreamWatermark>>, n: nat): (r: Result<seq<StreamWatermark>>)
    requires n <= |ps|
    ensures r.Success? ==> |r.value| == n
    decreases n
  {
    if n == 0 then Success([])
    else
      var before :- WatermarksFromProto(ps, n - 1);
      if ps[n - 1].None? then Failure(InvalidMessage)
      else
        var s := ps[n - 1].value;
        Success(before + [StreamWatermark(s.streamId, s.appliedThrough, s.hubGeneration)])
  }

  function HelloFromProto(p: Option<PbHello>): Result<Hello> {
    if p.None? then Failure(InvalidMessage)
    else
      var version :- ProtocolVersionFromUint32(p.value.protocolVersion);
      var minimum :- ProtocolVersionFromUint32(p.value.minSupportedVersion);
      var subscriptions :- WatermarksFromProto(p.value.subscriptions, |p.value.subscriptions|);
      var out := Hello(p.value.nodeId, ProtocolRange(version, minimum), subscriptions, p.value.clusterId,
                       p.value.expectedHubGeneration);
      Checked(out, HelloVerdict(out))
  }

  method FromProtoHello(p: Option<PbHello>) returns (r: Result<Hello>)
    ensures r == HelloFromProto(p)
  {
    if p.None? {
      return Failure(InvalidMessage);
    }
    var version := ProtocolVersionFromUint32(p.value.protocolVersion);
    if version.Failure? {
      return Failure(version.error);
    }
    var minimum := ProtocolVersionFromUint32(p.value.minSupportedVersion);
    if minimum.Failure? {
      return Failure(minimum.error);
    }
    var ps := p.value.subscriptions;
    var subscriptions: seq<StreamWatermark> := [];
    for i := 0 to |ps|
      invariant WatermarksFromProto(ps, i) == Success(subscriptions)
    {
      if ps[i].None? {
        WatermarksFail(ps, i + 1, |ps|);
        return Failure(InvalidMessage);
      }
      var s := ps[i].value;
      subscriptions := subscriptions + [StreamWatermark(s.streamId, s.appliedThrough, s.hubGeneration)];
    }
    var out := Hello(p.value.nodeId, ProtocolRange(version.value, minimum.value), subscriptions, p.value.clusterId,
                     p.value.expectedHubGeneration);
    var verdict := ValidateHello(out);
    return Checked(out, verdict);
  }

  lemma {:induction false} WatermarksFail(ps: seq<Option<PbStreamWatermark>>, i: nat, n: nat)
    requires i <= n <= |ps| && WatermarksFromProto(ps, i).Failure?
    ensures WatermarksFromProto(ps, n) == WatermarksFromProto(ps, i)
    decreases n
  {
    if i < n {
      WatermarksFail(ps, i, n - 1);
    }
  }

  lemma {:induction false} WatermarksFromProtoAt(ps: seq<Option<PbStreamWatermark>>, n: nat)
    requires n <= |ps|
    ensures WatermarksFromProto(ps, n).Success? <==> forall i | 0 <= i < n :: ps[i].Some?
    ensures WatermarksFromProto(ps, n).Success? ==>
      forall i | 0 <= i < n :: ps[i] == Some(ProtoWatermark(WatermarksFromProto(ps, n).value[i]))
    decreases n
  {
    if n > 0 {
      WatermarksFromProtoAt(ps, n - 1);
    }
  }

  lemma HelloRoundTrip(m: Hello)
    ensures HelloFromProto(Some(HelloToProto(m))) == Checked(m, HelloVerdict(m))
  {
    var ps := HelloToProto(m).subscriptions;
    WatermarksFromProtoAt(ps, |ps|);
    var back := WatermarksFromProto(ps, |ps|).value;
    forall i | 0 <= i < |ps|
      ensures back[i] == m.subscriptions[i]
    {
      assert ps[i] == Some(ProtoWatermark(m.subscriptions[i]));
    }
    assert back == m.subscriptions;
  }

  lemma HelloNotNarrowed(p: PbHello)
    requires HelloFromProto(Some(p)).Success?
    ensures HelloToProto(HelloFromProto(Some(p)).value) == p
  {
    WatermarksFromProtoAt(p.subscriptions, |p.subscriptions|);
    assert HelloToProto(HelloFromProto(Some(p)).value).subscriptions == p.subscriptions;
  }

  // ---------- Envelopes ----------

  datatype ClientBody =
    | HelloBody(hello: Hello)
    | SubscribeBody(subscribe: Subscribe)
    | AcknowledgementBody(acknowledgement: StreamAcknowledgement)
    | ReplayRequestBody(replayRequest: ReplayRequest)
    | ConfirmBody(confirm: InvalidateConfirm)
  {
    function Verdict(): Outcome {
      match this
      case HelloBody(m) => HelloVerdict(m)
      case SubscribeBody(m) => SubscribeVerdict(m)
      case AcknowledgementBody(m) => m.Validate()
      case ReplayRequestBody(m) => m.Validate()
      case ConfirmBody(m) => m.Validate()
    }
  }

  /** M is the batch: a value here, a heap batch in ControlHeap. */
  datatype ServerBody<+M> =
    | BatchBody(batch: M)
    | CheckpointBody(checkpoint: StreamCheckpoint)
    | ReplayUnavailableBody(replayUnavailable: ReplayUnavailable)
    | ControlErrorBody(controlError: ControlError)

  type Server = ServerBody<InvalidationBatch>

  function ServerVerdict(b: Server): Outcome {
    match b
    case BatchBody(m) => BatchVerdict(m)
    case CheckpointBody(m) => m.Validate()
    case ReplayUnavailableBody(m) => m.Validate()
    case ControlErrorBody(m) => m.Validate()
  }

  function ProtoClientMessage(b: ClientBody): PbClientMessage {
    PbClientMessage(Some(
      match b
      case HelloBody(m) => PbHelloBody(Some(HelloToProto(m)))
      case SubscribeBody(m) => PbSubscribeBody(Some(PbSubscribe(m.hubGeneration, m.streamIds)))
      case AcknowledgementBody(m) =>
        PbAcknowledgementBody(Some(PbStreamAcknowledgement(m.streamId, m.appliedThrough)))
      case ReplayRequestBody(m) =>
        PbReplayRequestBody(Some(PbReplayRequest(m.streamId, m.fromSequence, m.toSequence)))
      case ConfirmBody(m) => PbConfirmBody(Some(PbInvalidateConfirm(m.streamId, m.streamSequence, m.nodeId)))))
  }

  /** The bodies without buffers encode alike whatever a batch is made of. */
  function ProtoPlainBody<M, B>(b: ServerBody<M>): PbServerBody<B>
    requires !b.BatchBody?
  {
    match b
    case CheckpointBody(m) =>
      PbCheckpointBody(Some(PbStreamCheckpoint(m.streamId, m.hubGeneration, m.streamHead)))
    case ReplayUnavailableBody(m) =>
      PbReplayUnavailableBody(Some(PbReplayUnavailable(
        m.streamId, m.hubGeneration, m.requestedFrom, m.oldestAvailable, m.streamHead)))
    case ControlErrorBody(m) => PbControlErrorBody(Some(PbControlError(m.status, m.detail)))
  }

  function ProtoServerMessage(b: Server): PbServerMessage<Bytes> {
    PbServerMessage(Some(
      if b.BatchBody? then PbBatchBody(Some(ProtoBatch(b.batch)))
      else ProtoPlainBody<InvalidationBatch, Bytes>(b)))
  }

  function SubscribeFromProto(p: Option<PbSubscribe>): Result<Subscribe> {
    if p.None? then Failure(InvalidMessage)
    else
      var out := Subscribe(p.value.hubGeneration, p.value.streamIds);
      Checked(out, SubscribeVerdict(out))
  }

  function AcknowledgementFromProto(p: Option<PbStreamAcknowledgement>): Result<StreamAcknowledgement> {
    if p.None? then Failure(InvalidMessage)
    else
      var out := StreamAcknowledgement(p.value.streamId, p.value.appliedThrough);
      Checked(out, out.Validate())
  }

  function ReplayRequestFromProto(p: Option<PbReplayRequest>): Result<ReplayRequest> {
    if p.None? then Failure(InvalidMessage)
    else
      var out := ReplayRequest(p.value.streamId, p.value.fromSequence, p.value.toSequence);
      Checked(out, out.Validate())
  }

  function ConfirmFromProto(p: Option<PbInvalidateConfirm>): Result<InvalidateConfirm> {
    if p.None? then Failure(InvalidMessage)
    else
      var out := InvalidateConfirm(p.value.streamId, p.value.streamSequence, p.value.nodeId);
      Checked(out, out.Validate())
  }

  function CheckpointFromProto(p: Option<PbStreamCheckpoint>): Result<StreamCheckpoint> {
    if p.None? then Failure(InvalidMessage)
    else
      var out := StreamCheckpoint(p.value.streamId, p.value.hubGeneration, p.value.streamHead);
      Checked(out, out.Validate())
  }

  function ReplayUnavailableFromProto(p: Option<PbReplayUnavailable>): Result<ReplayUnavailable> {
    if p.None? then Failure(InvalidMessage)
    else
      var out := ReplayUnavailable(p.value.streamId, p.value.hubGeneration, p.value.requestedFrom,
                                   p.value.oldestAvailable, p.value.streamHead);
      Checked(out, out.Validate())
  }

  function ControlErrorFromProto(p: Option<PbControlError>): Result<ControlError> {
    if p.None? then Failure(InvalidMessage)
    else
      var status :- StatusFromProto(p.value.status);
      var out := ControlError(status, p.value.detail);
      Checked(out, out.Validate())
  }

  function Map<T, U>(r: Result<T>, f: T -> U): Result<U> {
    match r
    case Success(v) => Success(f(v))
    case Failure(e) => Failure(e)
  }

  function FromProtoClientMessage(p: Option<PbClientMessage>): Result<ClientBody> {
    if p.None? || p.value.body.None? then Failure(InvalidMessage)
    else
      match p.value.body.value
      case PbHelloBody(m) => Map(HelloFromProto(m), v => HelloBody(v))
      case PbSubscribeBody(m) => Map(SubscribeFromProto(m), v => SubscribeBody(v))
      case PbAcknowledgementBody(m) => Map(AcknowledgementFromProto(m), v => AcknowledgementBody(v))
      case PbReplayRequestBody(m) => Map(ReplayRequestFromProto(m), v => ReplayRequestBody(v))
      case PbConfirmBody(m) => Map(ConfirmFromProto(m), v => ConfirmBody(v))
  }

  function PlainBodyFromProto<M, B>(p: PbServerBody<B>): Result<ServerBody<M>>
    requires !p.PbBatchBody?
  {
    match p
    case PbCheckpointBody(m) => Map(CheckpointFromProto(m), v => CheckpointBody(v))
    case PbReplayUnavailableBody(m) => Map(ReplayUnavailableFromProto(m), v => ReplayUnavailableBody(v))
    case PbControlErrorBody(m) => Map(ControlErrorFromProto(m), v => ControlErrorBody(v))
  }

  function FromProtoServerMessage(p: Option<PbServerMessage<Bytes>>): Result<Server> {
    if p.None? || p.value.body.None? then Failure(InvalidMessage)
    else if p.value.body.value.PbBatchBody? then Map(FromProtoBatch(p.value.body.value.batch), v => BatchBody(v))
    else PlainBodyFromProto<InvalidationBatch, Bytes>(p.value.body.value)
  }

  /** An unset envelope, an unset body or a nil message inside it is refused as no message at all. */
  lemma NilRefused(c: PbClientMessage, s: PbServerMessage<Bytes>)
    ensures FromProtoClientMessage(None) == Failure(InvalidMessage)
    ensures FromProtoServerMessage(None) == Failure(InvalidMessage)
    ensures (c.body.None? || c.body.value in {PbHelloBody(None), PbSubscribeBody(None), PbAcknowledgementBody(None),
        PbReplayRequestBody(None), PbConfirmBody(None)}) ==> FromProtoClientMessage(Some(c)) == Failure(InvalidMessage)
    ensures (s.body.None? || s.body.value in {PbBatchBody(None), PbCheckpointBody(None), PbReplayUnavailableBody(None),
        PbControlErrorBody(None)}) ==> FromProtoServerMessage(Some(s)) == Failure(InvalidMessage)
  {
  }

  /** Versions above 16 bits and unknown statuses are refused, never truncated. */
  lemma NarrowingRefused(h: PbHello, e: PbControlError)
    ensures (h.protocolVersion > 0xFFFF || h.minSupportedVersion > 0xFFFF) ==>
      HelloFromProto(Some(h)) == Failure(InvalidProtocolRange)
    ensures !(0 <= e.status <= 8) ==> ControlErrorFromProto(Some(e)) == Failure(InvalidControlStatus)
  {
  }

  /** Every client message survives its envelope exactly when it is valid. */
  lemma ClientRoundTrip(b: ClientBody)
    ensures FromProtoClientMessage(Some(ProtoClientMessage(b))) == Checked(b, b.Verdict())
  {
    if b.HelloBody? {
      HelloRoundTrip(b.hello);
    }
  }

  /** Every server message survives its envelope exactly when it is valid. */
  lemma ServerRoundTrip(b: Server)
    ensures FromProtoServerMessage(Some(ProtoServerMessage(b))).Success? <==> ServerVerdict(b).Pass?
    ensures ServerVerdict(b).Pass? ==> FromProtoServerMessage(Some(ProtoServerMessage(b))) == Success(b)
  {
    if b.BatchBody? {
      BatchRoundTrip(b.batch);
    }
  }

  /** What a client envelope decodes to re-encodes to the same envelope. */
  lemma ClientNotNarrowed(p: PbClientMessage)
    requires FromProtoClientMessage(Some(p)).Success?
    ensures ProtoClientMessage(FromProtoClientMessage(Some(p)).value) == p
  {
    if p.body.value.PbHelloBody? {
      HelloNotNarrowed(p.body.value.hello.value);
    }
  }

  /** What a server envelope decodes to re-encodes to the same envelope. */
  lemma ServerNotNarrowed(p: PbServerMessage<Bytes>)
    requires FromProtoServerMessage(Some(p)).Success?
    ensures ProtoServerMessage(FromProtoServerMessage(Some(p)).value) == p
  {
    if p.body.value.PbBatchBody? {
      BatchNotNarrowed(p.body.value.batch.value);
    }
  }
}
