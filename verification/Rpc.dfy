/** Data-plane messages and their validation (internal/rpc/types.go, status.go). */
module Rpc {
  import opened Words
  import opened Outcomes
  import opened Text
  import opened Wire
  import opened Routing
  import opened XXHash
  import opened XXHashInjective

  const OP_SET: U8 := 1
  const OP_DELETE: U8 := 2

  predicate ValidOp(op: U8) { op == OP_SET || op == OP_DELETE }

  function ValidateClusterId(id: string): Outcome {
    if Blank(id) then Fail(InvalidClusterId) else Pass
  }

  // ---------- Session messages ----------

  datatype HandshakeRequest = HandshakeRequest(protocol: ProtocolRange, clusterId: string, expectedHubGeneration: U64) {
    function Validate(): Outcome {
      if protocol.Validate().Fail? then protocol.Validate() else ValidateClusterId(clusterId)
    }
  }

  datatype Handshake = Handshake(protocolVersion: U16, hubGeneration: U64, partitionCount: U32, storageProfile: U8,
                                 durableHealthy: bool, clusterId: string)
  {
    function Validate(): Outcome {
      if protocolVersion < MIN_SUPPORTED_PROTOCOL_VERSION || protocolVersion > CURRENT_PROTOCOL_VERSION then
        Fail(IncompatibleProtocolRanges)
      else if hubGeneration == 0 then Fail(InvalidHubGeneration)
      else if partitionCount == 0 then Fail(InvalidPartitionCount)
      else if !ValidStorageProfile(storageProfile) then Fail(InvalidStorageProfile)
      else if storageProfile == STORAGE_MEMORY && durableHealthy then Fail(InvalidDurableHealth)
      else ValidateClusterId(clusterId)
    }
  }

  datatype HubStatusRequest = HubStatusRequest(hubGeneration: U64) {
    function Validate(): Outcome {
      if hubGeneration == 0 then Fail(InvalidHubGeneration) else Pass
    }
  }

  datatype HubStatus = HubStatus(hubGeneration: U64, storageProfile: U8, durableHealthy: bool, status: U16) {
    function Validate(): Outcome {
      if hubGeneration == 0 then Fail(InvalidHubGeneration)
      else if !ValidStatus(status) then Fail(InvalidStatus)
      else if status == STATUS_OK then
        if !ValidStorageProfile(storageProfile) then Fail(InvalidStorageProfile)
        else if storageProfile == STORAGE_MEMORY && durableHealthy then Fail(InvalidDurableHealth)
        else Pass
      else if status == STATUS_ERR_BAD_GENERATION || status == STATUS_ERR_INVALID_ARGUMENT then Pass
      else Fail(InvalidStatus)
    }
  }

  /** What an accepted handshake advertises. */
  predicate HandshakeAccepted(m: Handshake) {
    && m.protocolVersion == 1 && m.hubGeneration != 0 && m.partitionCount != 0
    && (m.storageProfile == STORAGE_DURABLE || (m.storageProfile == STORAGE_MEMORY && !m.durableHealthy))
    && !Blank(m.clusterId)
  }

  /** Durable health is advertised by a durable hub only; the profile counts on OK only. */
  predicate HubStatusAccepted(m: HubStatus) {
    && m.hubGeneration != 0
    && m.status in {STATUS_OK, STATUS_ERR_BAD_GENERATION, STATUS_ERR_INVALID_ARGUMENT}
    && (m.status == STATUS_OK ==>
          m.storageProfile == STORAGE_DURABLE || (m.storageProfile == STORAGE_MEMORY && !m.durableHealthy))
  }

  /** The session messages are accepted exactly on these terms. */
  lemma SessionAcceptedExactly(r: HandshakeRequest, h: Handshake, p: HubStatusRequest, s: HubStatus)
    ensures r.Validate().Pass? <==> 0 < r.protocol.minSupported <= r.protocol.version && !Blank(r.clusterId)
    ensures h.Validate().Pass? <==> HandshakeAccepted(h)
    ensures p.Validate().Pass? <==> p.hubGeneration > 0
    ensures s.Validate().Pass? <==> HubStatusAccepted(s)
  {
    hide Blank;
  }

  /** An error on a session message names a fault the message has. */
  lemma SessionErrors(r: HandshakeRequest, h: Handshake, p: HubStatusRequest, s: HubStatus)
    ensures r.Validate() == Fail(InvalidProtocolRange) <==> r.protocol.Validate().Fail?
    ensures r.Validate() == Fail(InvalidClusterId) ==> Blank(r.clusterId)
    ensures r.Validate().Fail? ==> r.Validate().error in {InvalidProtocolRange, InvalidClusterId}
    ensures h.Validate() == Fail(IncompatibleProtocolRanges) <==> h.protocolVersion != 1
    ensures h.Validate() == Fail(InvalidHubGeneration) ==> h.hubGeneration == 0
    ensures h.Validate() == Fail(InvalidPartitionCount) ==> h.partitionCount == 0
    ensures h.Validate() == Fail(InvalidStorageProfile) ==> h.storageProfile > STORAGE_DURABLE
    ensures h.Validate() == Fail(InvalidDurableHealth) ==> h.storageProfile == STORAGE_MEMORY && h.durableHealthy
    ensures h.Validate() == Fail(InvalidClusterId) ==> Blank(h.clusterId)
    ensures h.Validate().Fail? ==> h.Validate().error in {IncompatibleProtocolRanges, InvalidHubGeneration,
      InvalidPartitionCount, InvalidStorageProfile, InvalidDurableHealth, InvalidClusterId}
    ensures p.Validate().Fail? ==> p.Validate() == Fail(InvalidHubGeneration)
    ensures s.Validate() == Fail(InvalidHubGeneration) <==> s.hubGeneration == 0
    ensures s.Validate() == Fail(InvalidStatus) <==>
      s.hubGeneration != 0 && s.status !in {STATUS_OK, STATUS_ERR_BAD_GENERATION, STATUS_ERR_INVALID_ARGUMENT}
    ensures s.Validate() == Fail(InvalidStorageProfile) ==> s.storageProfile > STORAGE_DURABLE
    ensures s.Validate() == Fail(InvalidDurableHealth) ==> s.storageProfile == STORAGE_MEMORY && s.durableHealthy
    ensures s.Validate().Fail? ==> s.Validate().error in {InvalidHubGeneration, InvalidStatus, InvalidStorageProfile,
      InvalidDurableHealth}
  {
    hide Blank;
  }

  // ---------- Reads ----------

  /** B holds the key: bytes here, a heap buffer in RpcHeap. */
  datatype GetRequest<+B> = GetRequest(key: B, minVersion: Option<VersionTag>, hubGeneration: U64)

  function ValidateGet(m: GetRequest<Bytes>): Outcome {
    if m.hubGeneration == 0 then Fail(InvalidHubGeneration) else ValidateKey(m.key)
  }

  function ValidateForPartitions(m: GetRequest<Bytes>, partitionCount: U32): Outcome {
    if ValidateGet(m).Fail? then ValidateGet(m)
    else WireGetRequest(m.key, m.minVersion).Validate(partitionCount)
  }

  /** What an accepted read promises. */
  predicate GetAccepted(m: GetRequest<Bytes>, partitionCount: U32) {
    && m.hubGeneration != 0 && 0 < |m.key| <= MAX_KEY_LEN && partitionCount != 0
    && (m.minVersion.Some? ==> m.minVersion.value.partitionId == PartitionOf(m.key, partitionCount))
  }

  /** A read is accepted exactly within the bounds, with no minimum version or one of its own partition. */
  lemma GetAcceptedExactly(m: GetRequest<Bytes>, partitionCount: U32)
    ensures ValidateForPartitions(m, partitionCount).Pass? <==> GetAccepted(m, partitionCount)
    ensures ValidateGet(m).Pass? <==> m.hubGeneration != 0 && 0 < |m.key| <= MAX_KEY_LEN
    ensures ValidateForPartitions(m, partitionCount) == Fail(InvalidHubGeneration) <==> m.hubGeneration == 0
    ensures ValidateForPartitions(m, partitionCount) == Fail(KeyEmpty) <==> m.hubGeneration != 0 && m.key == []
    ensures ValidateForPartitions(m, partitionCount) == Fail(KeyTooLarge) <==>
      m.hubGeneration != 0 && |m.key| > MAX_KEY_LEN
    ensures ValidateForPartitions(m, partitionCount) == Fail(InvalidPartitionCount) <==>
      ValidateGet(m).Pass? && partitionCount == 0
    ensures ValidateForPartitions(m, partitionCount) == Fail(MinVersionElsewhere) <==>
      ValidateGet(m).Pass? && partitionCount != 0 && !GetAccepted(m, partitionCount)
  {
    hide PartitionOf;
  }

  /** Any two minimum versions accepted for one key name its partition and compare one way. */
  lemma AcceptedVersionsCompare(key: Bytes, v: VersionTag, w: VersionTag, g: U64, h: U64, partitionCount: U32)
    ensures
      && ValidateForPartitions(GetRequest(key, Some(v), g), partitionCount).Pass?
      && ValidateForPartitions(GetRequest(key, Some(w), h), partitionCount).Pass?
      ==>
      && 0 < partitionCount
      && v.partitionId == w.partitionId == PartitionOf(key, partitionCount) < partitionCount
      && (if v == w then 1 else 0) + (if v.IsNewer(w) then 1 else 0) + (if w.IsNewer(v) then 1 else 0) == 1
  {
    hide PartitionOf;
  }

  /** Each partition's versions are accepted for some key, whatever the sequence. */
  lemma EveryPartitionHasVersions(p: U32, sequence: U64, partitionCount: U32) returns (m: GetRequest<Bytes>)
    requires p < partitionCount
    ensures m.minVersion == Some(VersionTag(p, sequence))
    ensures ValidateForPartitions(m, partitionCount).Pass?
  {
    hide PartitionOf, TailReads, TailRead, AgreeOff;
    OneRead(8);
    var key := EveryPartitionReached(ZERO_LANE, 0, p, partitionCount);
    m := GetRequest(key, Some(VersionTag(p, sequence)), 1);
  }

  /** IsNewer is a strict order that never crosses partitions, and within one it is the order of the sequences. */
  lemma IsNewerStrictOrder(a: VersionTag, b: VersionTag, c: VersionTag)
    ensures !a.IsNewer(a)
    ensures a.IsNewer(b) && b.IsNewer(c) ==> a.IsNewer(c)
    ensures a.IsNewer(b) ==> a.partitionId == b.partitionId && !b.IsNewer(a)
    ensures a.partitionId == b.partitionId ==> (a.IsNewer(b) <==> a.sequence > b.sequence)
  {
  }

  /** The committed tags are those newer than the zero sequence of their own partition. */
  lemma CommittedIsNewer(v: VersionTag)
    ensures v.ValidateCommitted().Pass? <==> v.IsNewer(VersionTag(v.partitionId, 0))
    ensures v.ValidateCommitted().Fail? ==> v.ValidateCommitted() == Fail(MissingVersion)
  {
  }

  /** All of them minimum versions accepted for the key. */
  predicate AcceptedFor(key: Bytes, versions: seq<VersionTag>, partitionCount: U32) {
    forall v | v in versions :: ValidateForPartitions(GetRequest(key, Some(v), 1), partitionCount).Pass?
  }

  /** Among the versions accepted for a key, the newest is the one with the greatest sequence. */
  lemma NewestIsGreatest(key: Bytes, versions: seq<VersionTag>, i: nat, partitionCount: U32)
    requires AcceptedFor(key, versions, partitionCount) && i < |versions|
    ensures (forall v | v in versions :: v == versions[i] || versions[i].IsNewer(v)) <==>
      (forall v | v in versions :: v.sequence <= versions[i].sequence)
  {
    hide PartitionOf;
    forall v | v in versions
      ensures (v == versions[i] || versions[i].IsNewer(v)) <==> v.sequence <= versions[i].sequence
    {
      AcceptedVersionsCompare(key, v, versions[i], 1, 1, partitionCount);
    }
  }

  datatype GetResponse<+B> = GetResponse(
    status: U16, hubGeneration: U64, version: VersionTag, value: B, ttlMillis: U64, kind: U8)

  predicate StatusCarriesGetRecord(s: U16) { s == STATUS_OK }

  function ValidateGetResponse(m: GetResponse<Bytes>): Outcome {
    var fields := GetRecordFields(m.status, m.version, m.kind, m.value);
    if m.hubGeneration == 0 then Fail(InvalidHubGeneration)
    else if fields.Validate().Fail? then fields.Validate()
    else if !StatusCarriesGetRecord(m.status) && m.ttlMillis != 0 then Fail(InvalidResultTtl)
    else Pass
  }

  /** What an accepted read result promises: a record exactly on OK, and nothing of one otherwise. */
  predicate GetResponseAccepted(m: GetResponse<Bytes>) {
    && m.hubGeneration != 0
    && m.status <= STATUS_ERR_INTERNAL && m.status != STATUS_ERR_WRITE_CONFIRM_TIMEOUT
    && if m.status == STATUS_OK then
      && m.version.sequence != 0
      && ((m.kind == RECORD_VALUE && |m.value| <= MAX_VALUE_LEN) || (m.kind == RECORD_TOMBSTONE && m.value == []))
    else
      m == GetResponse(m.status, m.hubGeneration, VersionTag(0, 0), [], 0, RECORD_VALUE)
  }

  lemma GetResponseAcceptedExactly(m: GetResponse<Bytes>)
    ensures ValidateGetResponse(m).Pass? <==> GetResponseAccepted(m)
  {
  }

  /** Which error a read result gets; a record on OK is checked in one order, the absence of one in another. */
  lemma GetResponseErrors(m: GetResponse<Bytes>)
    ensures ValidateGetResponse(m) == Fail(InvalidHubGeneration) <==> m.hubGeneration == 0
    ensures ValidateGetResponse(m) == Fail(InvalidGetStatus) <==>
      m.hubGeneration != 0 && (m.status > STATUS_ERR_INTERNAL || m.status == STATUS_ERR_WRITE_CONFIRM_TIMEOUT)
    ensures ValidateGetResponse(m) == Fail(MissingVersion) <==>
      m.hubGeneration != 0 && m.status == STATUS_OK && m.version.sequence == 0
    ensures ValidateGetResponse(m) == Fail(UnexpectedVersion) ==>
      m.status != STATUS_OK && m.version != VersionTag(0, 0)
    ensures ValidateGetResponse(m) == Fail(InvalidRecordKind) ==>
      m.kind > (if m.status == STATUS_OK then RECORD_TOMBSTONE else RECORD_VALUE)
    ensures ValidateGetResponse(m) == Fail(UnexpectedValue) ==>
      m.value != [] && (m.status == STATUS_OK ==> m.kind == RECORD_TOMBSTONE)
    ensures ValidateGetResponse(m) == Fail(ValueTooLarge) ==> |m.value| > MAX_VALUE_LEN
    ensures ValidateGetResponse(m) == Fail(InvalidResultTtl) ==> m.status != STATUS_OK && m.ttlMillis != 0
    ensures ValidateGetResponse(m).Fail? ==> ValidateGetResponse(m).error in {
      InvalidHubGeneration, InvalidGetStatus, MissingVersion, UnexpectedVersion, InvalidRecordKind, UnexpectedValue,
      ValueTooLarge, InvalidResultTtl}
  {
  }

  // ---------- Mutations ----------

  datatype MutationRequest<+B> = MutationRequest(
    op: U8, key: B, value: B, ttlMillis: U64, mutationId: MutationId, mode: U8, w: U16, confirm: U8,
    timeout: U32, hubGeneration: U64)
  {
    /** The write policy in the shared model; the timeout product is an int64 product. */
    function Options(): WriteOptions {
      WriteOptions(w, mode, confirm, MulI64(timeout, MILLISECOND))
    }

    /** The projection is exact and always within the timeout checks. */
    lemma OptionsExact()
      ensures IsMillis(Options().timeout, timeout)
      ensures Options().Validate().Pass? <==> mode in {WRITE_FAST, WRITE_SYNC} && confirm == CONFIRM_INVALIDATE_APPLIED
    {
      assert IsMillis(Options().timeout, timeout);
      Options().ValidateExact();
    }
  }

  function ValidateMutation(m: MutationRequest<Bytes>): Outcome {
    if m.hubGeneration == 0 then Fail(InvalidHubGeneration)
    else if !ValidOp(m.op) then Fail(InvalidOp)
    else if m.op == OP_SET then
      SetRequest(m.key, m.value, m.ttlMillis, m.mutationId, m.Options()).Validate()
    else if |m.value| != 0 then Fail(UnexpectedValue)
    else if m.ttlMillis != 0 then Fail(UnexpectedTtl)
    else DeleteRequest(m.key, m.mutationId, m.Options()).Validate()
  }

  /** What an accepted mutation promises. */
  predicate MutationAccepted(m: MutationRequest<Bytes>) {
    && m.hubGeneration != 0 && m.mutationId != ZERO_ID
    && 0 < |m.key| <= MAX_KEY_LEN
    && m.mode in {WRITE_FAST, WRITE_SYNC} && m.confirm == CONFIRM_INVALIDATE_APPLIED
    && ((m.op == OP_SET && |m.value| <= MAX_VALUE_LEN) || (m.op == OP_DELETE && m.value == [] && m.ttlMillis == 0))
  }

  /** Validate accepts exactly these: no timeout, W or TTL of a set is ever refused. */
  lemma MutationAcceptedExactly(m: MutationRequest<Bytes>)
    ensures ValidateMutation(m).Pass? <==> MutationAccepted(m)
  {
    m.OptionsExact();
  }

  /** Which error a mutation gets. */
  lemma MutationErrors(m: MutationRequest<Bytes>)
    ensures ValidateMutation(m) == Fail(InvalidHubGeneration) <==> m.hubGeneration == 0
    ensures ValidateMutation(m) == Fail(InvalidOp) <==> m.hubGeneration != 0 && m.op !in {OP_SET, OP_DELETE}
    ensures ValidateMutation(m) == Fail(UnexpectedValue) <==>
      m.hubGeneration != 0 && m.op == OP_DELETE && m.value != []
    ensures ValidateMutation(m) == Fail(UnexpectedTtl) <==>
      m.hubGeneration != 0 && m.op == OP_DELETE && m.value == [] && m.ttlMillis != 0
    ensures ValidateMutation(m) == Fail(KeyEmpty) ==> m.key == []
    ensures ValidateMutation(m) == Fail(KeyTooLarge) ==> |m.key| > MAX_KEY_LEN
    ensures ValidateMutation(m) == Fail(ValueTooLarge) ==> m.op == OP_SET && |m.value| > MAX_VALUE_LEN
    ensures ValidateMutation(m) == Fail(MutationIdRequired) ==> m.mutationId == ZERO_ID
    ensures ValidateMutation(m) == Fail(InvalidWriteMode) ==> m.mode > WRITE_SYNC
    ensures ValidateMutation(m) == Fail(InvalidConfirmLevel) ==> m.confirm != CONFIRM_INVALIDATE_APPLIED
    ensures ValidateMutation(m).Fail? ==> ValidateMutation(m).error in {
      InvalidHubGeneration, InvalidOp, UnexpectedValue, UnexpectedTtl, KeyEmpty, KeyTooLarge, ValueTooLarge,
      MutationIdRequired, InvalidWriteMode, InvalidConfirmLevel}
  {
    m.OptionsExact();
    m.Options().ValidateExact();
  }

  datatype MutationResponse = MutationResponse(status: U16, hubGeneration: U64, version: VersionTag) {
    function Validate(): Outcome {
      if !ValidStatus(status) then Fail(InvalidMutationStatus)
      else if status == STATUS_NOT_FOUND || status == STATUS_NOT_CAUGHT_UP then Fail(InvalidMutationStatus)
      else if hubGeneration == 0 then Fail(InvalidHubGeneration)
      else if StatusCarriesCommittedVersion(status) then version.ValidateCommitted()
      else if !version.IsZero() then Fail(UnexpectedVersion)
      else Pass
    }
  }

  predicate StatusCarriesCommittedVersion(s: U16) {
    s == STATUS_OK || s == STATUS_ERR_WRITE_CONFIRM_TIMEOUT
  }

  /** What an accepted mutation outcome promises: a committed version exactly on OK and on a confirm timeout. */
  predicate MutationResponseAccepted(m: MutationResponse) {
    && m.hubGeneration != 0
    && m.status <= STATUS_ERR_INTERNAL && m.status !in {STATUS_NOT_FOUND, STATUS_NOT_CAUGHT_UP}
    && if m.status in {STATUS_OK, STATUS_ERR_WRITE_CONFIRM_TIMEOUT} then m.version.sequence > 0
       else m.version == VersionTag(0, 0)
  }

  /** Which error a mutation outcome gets. */
  lemma MutationResponseErrors(m: MutationResponse)
    ensures m.Validate() == Fail(InvalidMutationStatus) <==>
      m.status > STATUS_ERR_INTERNAL || m.status in {STATUS_NOT_FOUND, STATUS_NOT_CAUGHT_UP}
    ensures m.Validate() == Fail(InvalidHubGeneration) ==> m.hubGeneration == 0
    ensures m.Validate() == Fail(MissingVersion) ==>
      m.status in {STATUS_OK, STATUS_ERR_WRITE_CONFIRM_TIMEOUT} && m.version.sequence == 0
    ensures m.Validate() == Fail(UnexpectedVersion) ==>
      m.status !in {STATUS_OK, STATUS_ERR_WRITE_CONFIRM_TIMEOUT} && m.version != VersionTag(0, 0)
    ensures m.Validate().Fail? ==>
      m.Validate().error in {InvalidMutationStatus, InvalidHubGeneration, MissingVersion, UnexpectedVersion}
  {
  }
}
