/**
  Data-plane conversion (internal/rpc/convert.go) between domain values and
  protobuf messages, and what survives it. A nil pointer is None.
*/
module RpcProto {
  import opened Words
  import opened Outcomes
  import opened Wire
  import opened Rpc
  import opened ControlProto

  // ---------- Protobuf messages (api/proto/gossipcache/v1/data.proto) ----------

  datatype PbHandshakeRequest = PbHandshakeRequest(
    protocolVersion: U32, minSupportedVersion: U32, clusterId: string, expectedHubGeneration: U64)
  datatype PbHandshakeResponse = PbHandshakeResponse(
    protocolVersion: U32, hubGeneration: U64, partitionCount: U32, storageProfile: I32, durableHealthy: bool,
    clusterId: string)
  datatype PbHubStatusRequest = PbHubStatusRequest(hubGeneration: U64)
  datatype PbHubStatusResponse = PbHubStatusResponse(
    hubGeneration: U64, storageProfile: I32, durableHealthy: bool, status: I32)
  datatype PbGetRequest<+B> = PbGetRequest(key: B, minVersion: Option<PbVersionTag>, hubGeneration: U64)
  datatype PbGetResponse<+B> = PbGetResponse(
    status: I32, hubGeneration: U64, version: Option<PbVersionTag>, value: B, ttlMillis: U64, kind: I32)
  datatype PbMutationRequest<+B> = PbMutationRequest(
    op: I32, key: B, value: B, ttlMillis: U64, mutationId: Option<B>, mode: I32, w: U32, confirm: I32,
    timeoutMillis: U32, hubGeneration: U64)
  datatype PbMutationResponse = PbMutationResponse(status: I32, hubGeneration: U64, version: Option<PbVersionTag>)

  // ---------- Enumerations ----------

  function RpcStatusFromProto(s: I32): Result<U16> {
    if 0 <= s <= 8 then Success(s) else Failure(InvalidStatus)
  }

  function RpcRecordKindFromProto(k: I32): Result<U8> {
    if k == 0 then Success(RECORD_VALUE) else if k == 1 then Success(RECORD_TOMBSTONE) else Failure(InvalidEnum)
  }

  function WriteModeFromProto(m: I32): Result<U8> {
    if m == 0 then Success(WRITE_FAST) else if m == 1 then Success(WRITE_SYNC) else Failure(InvalidEnum)
  }

  function StorageProfileFromProto(p: I32): Result<U8> {
    if p == 0 then Success(STORAGE_MEMORY) else if p == 1 then Success(STORAGE_DURABLE) else Failure(InvalidEnum)
  }

  function ConfirmLevelFromProto(c: I32): Result<U8> {
    if c == 0 then Success(CONFIRM_INVALIDATE_APPLIED) else Failure(InvalidEnum)
  }

  function OpToProto(op: U8): I32 {
    if op == OP_SET then 1 else if op == OP_DELETE then 2 else 0
  }

  function OpFromProto(op: I32): Result<U8> {
    if op == 1 then Success(OP_SET) else if op == 2 then Success(OP_DELETE) else Failure(InvalidOp)
  }

  function VersionToProto(v: VersionTag): PbVersionTag { PbVersionTag(v.partitionId, v.sequence) }

  // ---------- Domain to protobuf ----------

  function ProtoHandshakeRequest(m: HandshakeRequest): PbHandshakeRequest {
    PbHandshakeRequest(m.protocol.version, m.protocol.minSupported, m.clusterId, m.expectedHubGeneration)
  }

  function ProtoHandshake(m: Handshake): PbHandshakeResponse {
    PbHandshakeResponse(m.protocolVersion, m.hubGeneration, m.partitionCount, m.storageProfile, m.durableHealthy,
                        m.clusterId)
  }

  function ProtoHubStatusRequest(m: HubStatusRequest): PbHubStatusRequest { PbHubStatusRequest(m.hubGeneration) }

  function ProtoHubStatus(m: HubStatus): PbHubStatusResponse {
    PbHubStatusResponse(m.hubGeneration, m.storageProfile, m.durableHealthy, m.status)
  }

  function ProtoGetRequest(m: GetRequest<Bytes>): PbGetRequest<Bytes> {
    PbGetRequest(m.key, if m.minVersion.None? then None else Some(VersionToProto(m.minVersion.value)), m.hubGeneration)
  }

  function ProtoGetResponse(m: GetResponse<Bytes>): PbGetResponse<Bytes> {
    PbGetResponse(m.status, m.hubGeneration, Some(VersionToProto(m.version)), m.value, m.ttlMillis, m.kind)
  }

  function ProtoMutationRequest(m: MutationRequest<Bytes>): PbMutationRequest<Bytes> {
    PbMutationRequest(OpToProto(m.op), m.key, m.value, m.ttlMillis, Some(m.mutationId), m.mode, m.w, m.confirm,
                      m.timeout, m.hubGeneration)
  }

  function ProtoMutationResponse(m: MutationResponse): PbMutationResponse {
    PbMutationResponse(m.status, m.hubGeneration, Some(VersionToProto(m.version)))
  }

  // ---------- Protobuf to domain ----------

  function FromProtoHandshakeRequest(p: Option<PbHandshakeRequest>): Result<HandshakeRequest> {
    if p.None? then Failure(NilMessage)
    else
      var version :- ProtocolVersionFromUint32(p.value.protocolVersion);
      var minimum :- ProtocolVersionFromUint32(p.value.minSupportedVersion);
      var out := HandshakeRequest(ProtocolRange(version, minimum), p.value.clusterId, p.value.expectedHubGeneration);
      Checked(out, out.Validate())
  }

  function FromProtoHandshake(p: Option<PbHandshakeResponse>): Result<Handshake> {
    if p.None? then Failure(NilMessage)
    else
      var version :- ProtocolVersionFromUint32(p.value.protocolVersion);
      var profile :- StorageProfileFromProto(p.value.storageProfile);
      var out := Handshake(version, p.value.hubGeneration, p.value.partitionCount, profile, p.value.durableHealthy,
                           p.value.clusterId);
      Checked(out, out.Validate())
  }

  function FromProtoHubStatusRequest(p: Option<PbHubStatusRequest>): Result<HubStatusRequest> {
    if p.None? then Failure(NilMessage)
    else
      var out := HubStatusRequest(p.value.hubGeneration);
      Checked(out, out.Validate())
  }

  function FromProtoHubStatus(p: Option<PbHubStatusResponse>): Result<HubStatus> {
    if p.None? then Failure(NilMessage)
    else
      var status :- RpcStatusFromProto(p.value.status);
      var profile :- StorageProfileFromProto(p.value.storageProfile);
      var out := HubStatus(p.value.hubGeneration, profile, p.value.durableHealthy, status);
      Checked(out, out.Validate())
  }

  function FromProtoGetRequest(p: Option<PbGetRequest<Bytes>>): Result<GetRequest<Bytes>> {
    if p.None? then Failure(NilMessage)
    else
      var minVersion := if p.value.minVersion.None? then None else Some(VersionFromProto(p.value.minVersion));
      var out := GetRequest(p.value.key, minVersion, p.value.hubGeneration);
      Checked(out, ValidateGet(out))
  }

  function FromProtoGetResponse(p: Option<PbGetResponse<Bytes>>): Result<GetResponse<Bytes>> {
    if p.None? then Failure(NilMessage)
    else
      var status :- RpcStatusFromProto(p.value.status);
      var kind :- RpcRecordKindFromProto(p.value.kind);
      var out := GetResponse(status, p.value.hubGeneration, VersionFromProto(p.value.version), p.value.value,
                             p.value.ttlMillis, kind);
      Checked(out, ValidateGetResponse(out))
  }

  function FromProtoMutationRequest(p: Option<PbMutationRequest<Bytes>>): Result<MutationRequest<Bytes>> {
    if p.None? then Failure(NilMessage)
    else
      var id :- MutationIdFromProto(p.value.mutationId);
      if p.value.w > 0xFFFF then Failure(InvalidWriteTimeout)
      else
        var op :- OpFromProto(p.value.op);
        var mode :- WriteModeFromProto(p.value.mode);
        var confirm :- ConfirmLevelFromProto(p.value.confirm);
        var out := MutationRequest(op, p.value.key, p.value.value, p.value.ttlMillis, id, mode, p.value.w, confirm,
                                   p.value.timeoutMillis, p.value.hubGeneration);
        Checked(out, ValidateMutation(out))
  }

  function FromProtoMutationResponse(p: Option<PbMutationResponse>): Result<MutationResponse> {
    if p.None? then Failure(NilMessage)
    else
      var status :- RpcStatusFromProto(p.value.status);
      var out := MutationResponse(status, p.value.hubGeneration, VersionFromProto(p.value.version));
      Checked(out, out.Validate())
  }

  // ---------- Round trips ----------

  /** Decoding what was encoded succeeds exactly on valid values, and returns them. */
  predicate RoundTrips<T(==)>(m: T, back: Result<T>, valid: bool) {
    (back.Success? <==> valid) && (valid ==> back == Success(m))
  }

  lemma HandshakeRequestRoundTrip(m: HandshakeRequest)
    ensures RoundTrips(m, FromProtoHandshakeRequest(Some(ProtoHandshakeRequest(m))), m.Validate().Pass?)
  {
  }

  lemma HandshakeRoundTrip(m: Handshake)
    ensures RoundTrips(m, FromProtoHandshake(Some(ProtoHandshake(m))), HandshakeAccepted(m))
  {
  }

  lemma HubStatusRequestRoundTrip(m: HubStatusRequest)
    ensures RoundTrips(m, FromProtoHubStatusRequest(Some(ProtoHubStatusRequest(m))), m.Validate().Pass?)
  {
  }

  /** A hub status also needs a known storage profile: Validate ignores it on error statuses, decoding does not. */
  lemma HubStatusRoundTrip(m: HubStatus)
    ensures RoundTrips(m, FromProtoHubStatus(Some(ProtoHubStatus(m))),
                       HubStatusAccepted(m) && m.storageProfile in {STORAGE_MEMORY, STORAGE_DURABLE})
  {
  }

  /** A hub status that Validate accepts and that its own encoding is refused for. */
  lemma ValidHubStatusRefused() returns (m: HubStatus)
    ensures m.Validate().Pass? && FromProtoHubStatus(Some(ProtoHubStatus(m))).Failure?
  {
    m := HubStatus(1, 2, false, STATUS_ERR_BAD_GENERATION);
  }

  lemma GetRequestRoundTrip(m: GetRequest<Bytes>)
    ensures RoundTrips(m, FromProtoGetRequest(Some(ProtoGetRequest(m))),
                       m.hubGeneration != 0 && 0 < |m.key| <= MAX_KEY_LEN)
  {
  }

  lemma GetResponseRoundTrip(m: GetResponse<Bytes>)
    ensures RoundTrips(m, FromProtoGetResponse(Some(ProtoGetResponse(m))), GetResponseAccepted(m))
  {
    GetResponseAcceptedExactly(m);
  }

  lemma MutationRequestRoundTrip(m: MutationRequest<Bytes>)
    ensures RoundTrips(m, FromProtoMutationRequest(Some(ProtoMutationRequest(m))), MutationAccepted(m))
  {
    MutationAcceptedExactly(m);
  }

  /** Validation, the round trip and the promised shape of an outcome single out the same values. */
  lemma MutationResponseRoundTrip(m: MutationResponse)
    ensures m.Validate().Pass? <==> MutationResponseAccepted(m)
    ensures RoundTrips(m, FromProtoMutationResponse(Some(ProtoMutationResponse(m))), m.Validate().Pass?)
  {
  }

  // ---------- Nothing is narrowed ----------

  /** An absent version reads as the zero version, which is how it re-encodes. */
  function WithVersion(v: Option<PbVersionTag>): Option<PbVersionTag> {
    if v.None? then Some(PbVersionTag(0, 0)) else v
  }

  /** Whatever is decoded re-encodes to the fields it came from, over all int32 enums and uint32 counts. */
  lemma SessionNotNarrowed(a: PbHandshakeRequest, b: PbHandshakeResponse, c: PbHubStatusResponse)
    ensures FromProtoHandshakeRequest(Some(a)).Success? ==>
      ProtoHandshakeRequest(FromProtoHandshakeRequest(Some(a)).value) == a
    ensures FromProtoHandshake(Some(b)).Success? ==> ProtoHandshake(FromProtoHandshake(Some(b)).value) == b
    ensures FromProtoHubStatus(Some(c)).Success? ==> ProtoHubStatus(FromProtoHubStatus(Some(c)).value) == c
  {
  }

  lemma ReadsNotNarrowed(a: PbGetRequest<Bytes>, b: PbGetResponse<Bytes>)
    ensures FromProtoGetRequest(Some(a)).Success? ==> ProtoGetRequest(FromProtoGetRequest(Some(a)).value) == a
    ensures FromProtoGetResponse(Some(b)).Success? ==>
      ProtoGetResponse(FromProtoGetResponse(Some(b)).value) == b.(version := WithVersion(b.version))
  {
  }

  lemma MutationsNotNarrowed(a: PbMutationRequest<Bytes>, b: PbMutationResponse)
    ensures FromProtoMutationRequest(Some(a)).Success? ==>
      ProtoMutationRequest(FromProtoMutationRequest(Some(a)).value) == a
    ensures FromProtoMutationResponse(Some(b)).Success? ==>
      ProtoMutationResponse(FromProtoMutationResponse(Some(b)).value) == b.(version := WithVersion(b.version))
  {
  }

  // ---------- What decoding refuses ----------

  /** The faults a mutation can have before its Validate, in the order they are found. */
  lemma MutationDecodeErrors(p: PbMutationRequest<Bytes>)
    ensures FromProtoMutationRequest(None) == Failure(NilMessage)
    ensures var r := FromProtoMutationRequest(Some(p));
      if p.mutationId.None? || p.mutationId.value == [] then r == Failure(MutationIdRequired)
      else if |p.mutationId.value| != 16 then r == Failure(MutationIdLength)
      else if p.w > 0xFFFF then r == Failure(InvalidWriteTimeout)
      else if p.op !in {1, 2} then r == Failure(InvalidOp)
      else p.mode !in {0, 1} || p.confirm != 0 ==> r == Failure(InvalidEnum)
  {
  }

  /** Nil messages, versions above 16 bits and unknown enumeration values are refused, never truncated. */
  lemma NarrowingRefused(a: PbHandshakeRequest, b: PbHandshakeResponse, c: PbHubStatusResponse,
                         d: PbGetResponse<Bytes>, e: PbMutationResponse)
    ensures FromProtoHandshakeRequest(None) == Failure(NilMessage) && FromProtoHandshake(None) == Failure(NilMessage)
    ensures FromProtoHubStatusRequest(None) == Failure(NilMessage) && FromProtoHubStatus(None) == Failure(NilMessage)
    ensures FromProtoGetRequest(None) == Failure(NilMessage) && FromProtoGetResponse(None) == Failure(NilMessage)
    ensures FromProtoMutationResponse(None) == Failure(NilMessage)
    ensures (a.protocolVersion > 0xFFFF || a.minSupportedVersion > 0xFFFF) ==>
      FromProtoHandshakeRequest(Some(a)) == Failure(InvalidProtocolRange)
    ensures b.protocolVersion > 0xFFFF ==> FromProtoHandshake(Some(b)) == Failure(InvalidProtocolRange)
    ensures (b.protocolVersion <= 0xFFFF && b.storageProfile !in {0, 1}) ==>
      FromProtoHandshake(Some(b)) == Failure(InvalidEnum)
    ensures !(0 <= c.status <= 8) ==> FromProtoHubStatus(Some(c)) == Failure(InvalidStatus)
    ensures (0 <= c.status <= 8 && c.storageProfile !in {0, 1}) ==> FromProtoHubStatus(Some(c)) == Failure(InvalidEnum)
    ensures !(0 <= d.status <= 8) ==> FromProtoGetResponse(Some(d)) == Failure(InvalidStatus)
    ensures (0 <= d.status <= 8 && d.kind !in {0, 1}) ==> FromProtoGetResponse(Some(d)) == Failure(InvalidEnum)
    ensures !(0 <= e.status <= 8) ==> FromProtoMutationResponse(Some(e)) == Failure(InvalidStatus)
  {
  }

  /** The schema numbers the operations from 1; 0 stands for no operation. */
  lemma OpNumbers(op: U8)
    ensures OpToProto(op) == 1 <==> op == OP_SET
    ensures OpToProto(op) == 2 <==> op == OP_DELETE
    ensures OpFromProto(OpToProto(op)) == if op in {OP_SET, OP_DELETE} then Success(op) else Failure(InvalidOp)
  {
  }
}
