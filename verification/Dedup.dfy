/** Deduplication of mutations (internal/rpc/dedup.go). */
module Dedup {
  import opened Words
  import opened Outcomes
  import opened Wire
  import opened Rpc
  import opened RpcProto

  datatype DedupKey = DedupKey(nodeId: U64, mutationId: MutationId) {
    function Validate(): Outcome {
      if nodeId == 0 then Fail(InvalidNodeId)
      else if mutationId == ZERO_ID then Fail(MutationIdRequired)
      else Pass
    }
  }

  /** Minted ids of different (node, epoch, counter) triples never share a dedup key. */
  lemma DedupKeysDistinct(node: U64, epoch: U64, counter: U64, node': U64, epoch': U64, counter': U64)
    ensures DedupKey(node, MintedId(epoch, counter)) == DedupKey(node', MintedId(epoch', counter'))
      <==> (node, epoch, counter) == (node', epoch', counter')
  {
    MintingBijective(epoch, counter, MintedId(epoch, counter));
    MintingBijective(epoch', counter', MintedId(epoch', counter'));
  }

  /** The only minted id a key refuses is that of epoch zero and counter zero. */
  lemma DedupKeyValid(node: U64, epoch: U64, counter: U64)
    ensures DedupKey(node, MintedId(epoch, counter)).Validate().Pass? <==>
      node != 0 && (epoch != 0 || counter != 0)
    ensures DedupKey(node, MintedId(epoch, counter)).Validate() == Fail(InvalidNodeId) <==> node == 0
    ensures DedupKey(node, MintedId(epoch, counter)).Validate() == Fail(MutationIdRequired) <==>
      node != 0 && epoch == 0 == counter
  {
    MintingBijective(0, 0, MintedId(epoch, counter));
    MintingBijective(epoch, counter, MintedId(epoch, counter));
    ZeroIsMinted();
  }

  lemma ZeroIsMinted()
    ensures MintedId(0, 0) == ZERO_ID
  {
    forall i | 0 <= i < 8
      ensures BigEndianBytes(0, 8)[i] == 0
    {
      BigEndianByteAt(0, 8, i);
      ShrSmall(0, 8 * (7 - i));
    }
  }

  /** The immutable content of a request. B holds key and value. */
  datatype MutationFingerprint<+B> = MutationFingerprint(
    op: U8, key: B, value: B, ttlMillis: U64, mode: U8, w: U16, confirm: U8)

  function Fingerprint(req: MutationRequest<Bytes>): MutationFingerprint<Bytes> {
    MutationFingerprint(req.op, req.key, req.value, req.ttlMillis, req.mode, req.w, req.confirm)
  }

  predicate Equal(f: MutationFingerprint<Bytes>, g: MutationFingerprint<Bytes>) {
    f.op == g.op && f.ttlMillis == g.ttlMillis && f.mode == g.mode && f.w == g.w && f.confirm == g.confirm
    && f.key == g.key && f.value == g.value
  }

  function CheckMatch(f: MutationFingerprint<Bytes>, g: MutationFingerprint<Bytes>): Outcome {
    if !Equal(f, g) then Fail(FingerprintMismatch) else Pass
  }

  predicate Matches(a: MutationRequest<Bytes>, b: MutationRequest<Bytes>) {
    CheckMatch(Fingerprint(a), Fingerprint(b)).Pass?
  }

  /** Requests match exactly when they agree on everything but identity, timeout and generation. */
  lemma MatchesExactly(a: MutationRequest<Bytes>, b: MutationRequest<Bytes>)
    ensures Matches(a, b) <==>
      a.(mutationId := b.mutationId, timeout := b.timeout, hubGeneration := b.hubGeneration) == b
  {
  }

  lemma MatchesIsEquivalence(a: MutationRequest<Bytes>, b: MutationRequest<Bytes>, c: MutationRequest<Bytes>)
    ensures Matches(a, a)
    ensures Matches(a, b) ==> Matches(b, a)
    ensures Matches(a, b) && Matches(b, c) ==> Matches(a, c)
  {
  }

  /** A request the hub decodes matches the one the node sent, and exactly the requests that one matches. */
  lemma FingerprintSurvivesWire(sent: MutationRequest<Bytes>, other: MutationRequest<Bytes>)
    requires ValidateMutation(sent).Pass?
    ensures FromProtoMutationRequest(Some(ProtoMutationRequest(sent))).Success?
    ensures var received := FromProtoMutationRequest(Some(ProtoMutationRequest(sent))).value;
      Matches(sent, received) && (Matches(other, received) <==> Matches(other, sent))
  {
    MutationRequestRoundTrip(sent);
  }
}
