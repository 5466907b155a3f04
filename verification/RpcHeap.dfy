/**
  Data-plane requests and responses on the heap: Clone, Fingerprint and the
  protobuf conversions copy every buffer they hand over.
*/
module RpcHeap {
  import opened Words
  import opened Outcomes
  import opened Buffers
  import opened ControlProto
  import opened ControlHeap
  import opened Rpc
  import opened RpcProto
  import opened Dedup

  // ---------- Views ----------

  function MutationView(m: MutationRequest<Buffer>): MutationRequest<Bytes>
    reads m.key, m.value
  {
    MutationRequest(m.op, Contents(m.key), Contents(m.value), m.ttlMillis, m.mutationId, m.mode, m.w, m.confirm,
                    m.timeout, m.hubGeneration)
  }

  function FingerprintView(f: MutationFingerprint<Buffer>): MutationFingerprint<Bytes>
    reads f.key, f.value
  {
    MutationFingerprint(f.op, Contents(f.key), Contents(f.value), f.ttlMillis, f.mode, f.w, f.confirm)
  }

  function MutationIdBuffer(p: PbMutationRequest<Buffer>): Buffer {
    if p.mutationId.None? then null else p.mutationId.value
  }

  function PbMutationView(p: PbMutationRequest<Buffer>): PbMutationRequest<Bytes>
    reads p.key, p.value, MutationIdBuffer(p)
  {
    PbMutationRequest(p.op, Contents(p.key), Contents(p.value), p.ttlMillis,
                      if p.mutationId.None? then None else Some(Contents(MutationIdBuffer(p))),
                      p.mode, p.w, p.confirm, p.timeoutMillis, p.hubGeneration)
  }

  function GetRequestView(m: GetRequest<Buffer>): GetRequest<Bytes>
    reads m.key
  {
    GetRequest(Contents(m.key), m.minVersion, m.hubGeneration)
  }

  function PbGetRequestView(p: PbGetRequest<Buffer>): PbGetRequest<Bytes>
    reads p.key
  {
    PbGetRequest(Contents(p.key), p.minVersion, p.hubGeneration)
  }

  function GetResponseView(m: GetResponse<Buffer>): GetResponse<Bytes>
    reads m.value
  {
    GetResponse(m.status, m.hubGeneration, m.version, Contents(m.value), m.ttlMillis, m.kind)
  }

  function PbGetResponseView(p: PbGetResponse<Buffer>): PbGetResponse<Bytes>
    reads p.value
  {
    PbGetResponse(p.status, p.hubGeneration, p.version, Contents(p.value), p.ttlMillis, p.kind)
  }

  // ---------- Clone and Fingerprint ----------

  method CloneMutation(m: MutationRequest<Buffer>) returns (c: MutationRequest<Buffer>)
    ensures MutationView(c) == old(MutationView(m))
    ensures OwnsBuffers([c.key, c.value])
  {
    var key := CopyBytes(m.key);
    var value := CopyBytes(m.value);
    c := m.(key := key, value := value);
  }

  /** The fingerprint keeps its own copies, so no later write to the request can change it. */
  method TakeFingerprint(req: MutationRequest<Buffer>) returns (f: MutationFingerprint<Buffer>)
    ensures FingerprintView(f) == Fingerprint(old(MutationView(req)))
    ensures OwnsBuffers([f.key, f.value])
  {
    var key := CopyBytes(req.key);
    var value := CopyBytes(req.value);
    f := MutationFingerprint(req.op, key, value, req.ttlMillis, req.mode, req.w, req.confirm);
  }

  /** A retry matches exactly when it carries the retained content, wherever either copy is stored. */
  method MatchFingerprints(f: MutationFingerprint<Buffer>, g: MutationFingerprint<Buffer>) returns (r: Outcome)
    ensures r == if FingerprintView(f) == FingerprintView(g) then Pass else Fail(FingerprintMismatch)
    ensures r == CheckMatch(FingerprintView(f), FingerprintView(g))
  {
    if f.op != g.op || f.ttlMillis != g.ttlMillis || f.mode != g.mode || f.w != g.w || f.confirm != g.confirm {
      return Fail(FingerprintMismatch);
    }
    var sameKey := BytesEqual(f.key, g.key);
    if !sameKey {
      return Fail(FingerprintMismatch);
    }
    var sameValue := BytesEqual(f.value, g.value);
    r := if sameValue then Pass else Fail(FingerprintMismatch);
  }

  /**
    A hub retains the fingerprint of a first request and meets a retry: the retry is
    matched exactly when it agrees on everything but identity, timeout and generation.
  */
  method CheckRetry(first: MutationRequest<Buffer>, retry: MutationRequest<Buffer>) returns (r: Outcome)
    ensures r.Pass? <==>
      var a, b := MutationView(first), MutationView(retry);
      a.(mutationId := b.mutationId, timeout := b.timeout, hubGeneration := b.hubGeneration) == b
    ensures r.Fail? ==> r == Fail(FingerprintMismatch)
  {
    var retained := TakeFingerprint(first);
    var offered := TakeFingerprint(retry);
    r := MatchFingerprints(retained, offered);
    MatchesExactly(MutationView(first), MutationView(retry));
  }

  // ---------- Mutation conversion ----------

  method EncodeMutation(m: MutationRequest<Buffer>) returns (p: PbMutationRequest<Buffer>)
    ensures PbMutationView(p) == ProtoMutationRequest(old(MutationView(m)))
    ensures OwnsBuffers([p.key, p.value, MutationIdBuffer(p)])
  {
    var key := CopyBytes(m.key);
    var value := CopyBytes(m.value);
    var id := Materialize(m.mutationId);
    p := PbMutationRequest(OpToProto(m.op), key, value, m.ttlMillis, Some(id), m.mode, m.w, m.confirm, m.timeout,
                           m.hubGeneration);
  }

  method DecodeMutation(p: Option<PbMutationRequest<Buffer>>) returns (r: Result<MutationRequest<Buffer>>)
    ensures match r
      case Success(m) =>
        && p.Some?
        && FromProtoMutationRequest(Some(old(PbMutationView(p.value)))) == Success(MutationView(m))
        && OwnsBuffers([m.key, m.value])
      case Failure(e) =>
        FromProtoMutationRequest(if p.None? then None else Some(old(PbMutationView(p.value)))) == Failure(e)
  {
    if p.None? {
      return Failure(NilMessage);
    }
    var id := CopyMutationId(p.value.mutationId);
    if id.Failure? {
      return Failure(id.error);
    }
    if p.value.w > 0xFFFF {
      return Failure(InvalidWriteTimeout);
    }
    var op := OpFromProto(p.value.op);
    if op.Failure? {
      return Failure(op.error);
    }
    var mode := WriteModeFromProto(p.value.mode);
    if mode.Failure? {
      return Failure(mode.error);
    }
    var confirm := ConfirmLevelFromProto(p.value.confirm);
    if confirm.Failure? {
      return Failure(confirm.error);
    }
    var key := CopyBytes(p.value.key);
    var value := CopyBytes(p.value.value);
    var m := MutationRequest(op.value, key, value, p.value.ttlMillis, id.value, mode.value, p.value.w, confirm.value,
                             p.value.timeoutMillis, p.value.hubGeneration);
    var verdict := ValidateMutation(MutationView(m));
    if verdict.Fail? {
      return Failure(verdict.error);
    }
    return Success(m);
  }

  /** A mutation sent and received: accepted exactly when valid, equal, of the same fingerprint, and unshared. */
  method SendMutation(m: MutationRequest<Buffer>) returns (r: Result<MutationRequest<Buffer>>)
    ensures r.Success? <==> ValidateMutation(old(MutationView(m))).Pass?
    ensures r.Success? ==>
      && MutationView(r.value) == old(MutationView(m)) == MutationView(m)
      && Matches(MutationView(m), MutationView(r.value))
      && OwnsBuffers([r.value.key, r.value.value])
  {
    hide ValidateMutation, FromProtoMutationRequest, ProtoMutationRequest;
    MutationRequestRoundTrip(MutationView(m));
    MutationAcceptedExactly(MutationView(m));
    var p := EncodeMutation(m);
    r := DecodeMutation(Some(p));
  }

  // ---------- Read conversion ----------

  method EncodeGetRequest(m: GetRequest<Buffer>) returns (p: PbGetRequest<Buffer>)
    ensures PbGetRequestView(p) == ProtoGetRequest(old(GetRequestView(m)))
    ensures OwnsBuffers([p.key])
  {
    var key := CopyBytes(m.key);
    p := PbGetRequest(key, if m.minVersion.None? then None else Some(VersionToProto(m.minVersion.value)),
                      m.hubGeneration);
  }

  method DecodeGetRequest(p: Option<PbGetRequest<Buffer>>) returns (r: Result<GetRequest<Buffer>>)
    ensures match r
      case Success(m) =>
        && p.Some?
        && FromProtoGetRequest(Some(old(PbGetRequestView(p.value)))) == Success(GetRequestView(m))
        && OwnsBuffers([m.key])
      case Failure(e) =>
        FromProtoGetRequest(if p.None? then None else Some(old(PbGetRequestView(p.value)))) == Failure(e)
  {
    if p.None? {
      return Failure(NilMessage);
    }
    var key := CopyBytes(p.value.key);
    var minVersion := if p.value.minVersion.None? then None else Some(VersionFromProto(p.value.minVersion));
    var m := GetRequest(key, minVersion, p.value.hubGeneration);
    var verdict := ValidateGet(GetRequestView(m));
    if verdict.Fail? {
      return Failure(verdict.error);
    }
    return Success(m);
  }

  method EncodeGetResponse(m: GetResponse<Buffer>) returns (p: PbGetResponse<Buffer>)
    ensures PbGetResponseView(p) == ProtoGetResponse(old(GetResponseView(m)))
    ensures OwnsBuffers([p.value])
  {
    var value := CopyBytes(m.value);
    p := PbGetResponse(m.status, m.hubGeneration, Some(VersionToProto(m.version)), value, m.ttlMillis, m.kind);
  }

  method DecodeGetResponse(p: Option<PbGetResponse<Buffer>>) returns (r: Result<GetResponse<Buffer>>)
    ensures match r
      case Success(m) =>
        && p.Some?
        && FromProtoGetResponse(Some(old(PbGetResponseView(p.value)))) == Success(GetResponseView(m))
        && OwnsBuffers([m.value])
      case Failure(e) =>
        FromProtoGetResponse(if p.None? then None else Some(old(PbGetResponseView(p.value)))) == Failure(e)
  {
    if p.None? {
      return Failure(NilMessage);
    }
    var status := RpcStatusFromProto(p.value.status);
    if status.Failure? {
      return Failure(status.error);
    }
    var kind := RpcRecordKindFromProto(p.value.kind);
    if kind.Failure? {
      return Failure(kind.error);
    }
    var value := CopyBytes(p.value.value);
    var m := GetResponse(status.value, p.value.hubGeneration, VersionFromProto(p.value.version), value,
                         p.value.ttlMillis, kind.value);
    var verdict := ValidateGetResponse(GetResponseView(m));
    if verdict.Fail? {
      return Failure(verdict.error);
    }
    return Success(m);
  }
}
