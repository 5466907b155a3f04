# gossipcache contract layer, modelled and proved in Dafny

The project models the shared contract layer of gossipcache: the seeded hash
that routes keys to partitions, the control-stream messages and their size
promise, the data-plane messages, and the identities that deduplicate
mutations. Run `dafny verify dfyconfig.toml` to check it.

| file | models |
|---|---|
| `Words.dfy` | bounded unsigned words, wrapping arithmetic, shifts, exclusive or, rotation, and why each step can be undone |
| `XXHash.dfy`, `XXHashInjective.dfy`, `Routing.dfy` | `internal/wire/partition.go` |
| `WordValues.dfy`, `XXHashVectors.dfy` | the frozen vectors of `internal/wire/testdata` and the reference hashes, followed step by step |
| `Outcomes.dfy`, `Text.dfy` | error kinds; UTF-8 lengths and blank strings |
| `Wire.dfy` | `internal/wire/types.go`, `record.go`, `protocol.go`, the enumeration of `status.go` |
| `Control.dfy`, `BatchCutting.dfy` | `internal/control/types.go` |
| `ControlProto.dfy` | `internal/control/convert.go` on values |
| `ProtoEncoding.dfy`, `ControlSize.dfy` | the protobuf encoding of `api/proto/gossipcache/v1/control.proto`, byte by byte |
| `ProtoDecodable.dfy`, `ControlDecodable.dfy`, `ControlBytes.dfy` | that this encoding loses nothing, and the numbering of its fields |
| `Buffers.dfy`, `ControlHeap.dfy`, `RpcHeap.dfy` | the same conversions, `Clone` and `Fingerprint` with heap buffers |
| `Rpc.dfy`, `RpcProto.dfy`, `Dedup.dfy` | `internal/rpc` |

How the source is rendered:

- Unsigned Go integers are bounded naturals, and every place where the source
  wraps (hash arithmetic, `previous+1`, `OldestAvailable-StreamHead`, the int64
  timeout product) reduces explicitly. Exclusive or is defined bit by bit.
- The hash specification (`XXHash.XXH64`) reads the key by byte position and
  follows steps 1 to 6 of the section "XXH64 Algorithm Description" of the xxHash
  fast digest algorithm specification. The loops over the shrinking slice are
  the methods, split at the two places where the source's single function
  changes phase.
- A `[]byte` is a sequence of bytes where only its contents matter, and a
  nullable array where ownership matters. A message type takes its buffer
  representation as a parameter, so both worlds share one declaration.
- One assumption is made about the language: `e.MutationID[:]`
  (`internal/control/convert.go:63`) slices the loop variable, and each iteration
  has its own since Go 1.22 (`go.mod:3` asks for 1.25). The model allocates the
  id's storage once per iteration for that reason; with one variable shared by
  all iterations the ids would share their storage too.
- A nil pointer is `None`; an error is its kind. Where Go returns a decoded
  value together with a validation error, the model keeps the error only.
- Sizes are lengths of encoded byte sequences, following the sections "Base 128
  Varints", "Length-Delimited Records" and "Packed Repeated Fields" of the
  Protocol Buffers Encoding guide.

Where the code and its documentation differ, the model follows the code:

- `internal/control/types.go:20-22` and `api/proto/gossipcache/v1/control.proto:13-15`
  bound every control message by `MaxControlMessageBytes`. Validation does not
  bound `Hello.ClusterID`, so an accepted hello can exceed the limit.
  `ControlSize.ClusterIdGuardExact` gives the exact guard, 3022808 bytes, and
  `ControlSize.AcceptedHelloTooLarge` a hello one byte beyond it that does not fit.
- `HubStatus.Validate` ignores the storage profile on error statuses while
  decoding always checks it, so an accepted status may not survive its own
  encoding; `RpcProto.HubStatusRoundTrip` gives the exact condition and
  `RpcProto.ValidHubStatusRefused` an example.

## Model

| member | source | states |
|---|---|---|
| XXHash.Hash | internal/wire/partition.go:66-122 | for every key and seed, the slice loops compute the positional XXH64 specification |
| XXHash.LayoutOf | internal/wire/partition.go:70-114 | a key length splits into 32-byte stripes, fewer than four lanes, at most one word and fewer than four bytes |
| XXHash.ConsumeStripes | internal/wire/partition.go:70-82 | the stripe loop leaves the four accumulators of all full stripes and the unread rest of the key |
| XXHash.ConsumeLanes | internal/wire/partition.go:98-103 | the 8-byte tail loop performs the lane reads of the specification and leaves fewer than eight bytes |
| XXHash.ConsumeBytes | internal/wire/partition.go:111-114 | the byte loop performs the remaining one-byte reads, in order |
| XXHash.ConsumeTail | internal/wire/partition.go:98-114 | the three tails perform every tail read once, left to right |
| XXHash.Uint64IsWord | internal/wire/partition.go:77-80 | an 8-byte load from the shrunk slice is the little-endian word at its own offset in the key |
| XXHash.Uint32IsWord | internal/wire/partition.go:105-109 | the same for the 4-byte load |
| XXHashInjective.EachByteReadOnce | internal/wire/partition.go:76-114 | every byte position belongs to a full stripe or to exactly one tail read |
| XXHashInjective.RoundBijective | internal/wire/partition.go:124-128 | for a fixed input, xxRound is a bijection on the accumulator, with an explicit inverse |
| XXHashInjective.RoundInjectiveInInput | internal/wire/partition.go:124-128 | for a fixed accumulator, xxRound is injective in its input |
| XXHashInjective.MergeRoundLosesNothing | internal/wire/partition.go:130-133 | xxMergeRound is a bijection on the hash, with an explicit inverse, and injective in the accumulator it merges |
| XXHashInjective.StripeStepLosesNothing | internal/wire/partition.go:76-82 | one stripe permutes the accumulator quadruples, and distinct stripes give distinct quadruples |
| XXHashInjective.StripesAreSteps | internal/wire/partition.go:76-82 | each turn of the stripe loop is that step, on the four lanes of its own stripe |
| XXHashInjective.StripeLoopBijective | internal/wire/partition.go:76-82 | for a fixed key the whole stripe loop is a bijection on each accumulator's start, with an explicit inverse |
| XXHashInjective.StripesTrackSeed | internal/wire/partition.go:70-82 | for a fixed key the accumulators after the loop are equal exactly when the seeds are |
| XXHashInjective.AccumulatorTracksLane | internal/wire/partition.go:76-82 | an accumulator depends only on its own lanes, one-to-one in each of them |
| XXHashInjective.StripesTrackOneStripe | internal/wire/partition.go:70-82 | keys that agree on all full stripes but one leave the loop with equal accumulators exactly when they agree on that one |
| XXHashInjective.AbsorbInjectiveInHash | internal/wire/partition.go:98-114 | every tail step is injective in the running hash |
| XXHashInjective.AbsorbInjectiveInValue | internal/wire/partition.go:98-114 | every tail step is injective in the value it reads |
| XXHashInjective.AbsorbBijective | internal/wire/partition.go:98-114 | for a fixed value every tail step is a bijection on the running hash, with an explicit inverse |
| XXHashInjective.AvalancheBijective | internal/wire/partition.go:116-121 | the final mix is a bijection on 64-bit words, with an explicit inverse |
| XXHashInjective.TailTracksRead | internal/wire/partition.go:98-114 | the hash after the tail is one-to-one in any single tail read |
| XXHashInjective.TailReadReachesHash | internal/wire/partition.go:66-122 | equal-length keys that agree outside one tail read hash alike exactly when they are equal, for every seed |
| XXHashInjective.TailByteReachesHash | internal/wire/partition.go:66-122 | changing any byte after the last full stripe changes the hash |
| XXHashInjective.OneReadKeysInjective | internal/wire/partition.go:66-122 | the hash is injective on keys of 1, of 4 and of 8 bytes |
| XXHashInjective.LaneReachesEveryHash | internal/wire/partition.go:66-122 | with all bytes of a key fixed but those of one 8-byte tail lane, each 64-bit value is the hash of exactly one filling of that lane, given explicitly |
| XXHashInjective.EightByteKeysBijective | internal/wire/partition.go:66-122 | on 8-byte keys the hash is a bijection onto the 64-bit words, with its inverse given |
| Routing.Route | internal/wire/partition.go:49-54 | routing returns the specified hash modulo the partition count |
| Routing.PartitionOf | internal/wire/partition.go:46-54 | a partition is always below the count |
| XXHashVectors.FrozenVectors | internal/wire/testdata/partition_vectors.json:1-14 | each of the twelve frozen keys and counts gives its frozen partition |
| XXHashVectors.EmptyHash | internal/wire/partition_test.go:19 | the empty key has its reference hash |
| XXHashVectors.LetterAHash | internal/wire/partition_test.go:20 | the one-byte key has its reference hash |
| XXHashVectors.GossipcacheHash | internal/wire/partition_test.go:21 | the 11-byte key, one lane and three bytes, has its reference hash |
| XXHashVectors.CountingUpHash | internal/wire/partition_test.go:22-31 | the 32-byte key 00 01 .. 1f, one stripe, has its reference hash |
| XXHashVectors.TestHash | internal/wire/partition.go:105-109 | the key "test" under seed zero, the 4-byte word read, hashes to 4fdcca5ddb678139 |
| Routing.EveryPartitionReached | internal/wire/partition.go:49-54 | for every non-zero count, every partition is reached by rewriting any one 8-byte tail lane of any key that has one |
| Words.MulInverse | internal/wire/partition.go:38-44 | wrapping multiplication by a constant with an inverse can be undone |
| Words.RotateBack | internal/wire/partition.go:84-87 | a left rotation is undone by the complementary one |
| Words.XorShiftBack | internal/wire/partition.go:116-120 | the xor-shifts of the final mix can be undone |
| Words.XorBit | internal/wire/partition.go:100-120 | the modelled exclusive or compares bit by bit |
| WordValues.XorIsBitwise | internal/wire/partition.go:100-120 | the modelled exclusive or is that of 64-bit vectors |
| WordValues.RotationValues | internal/wire/partition.go:84-126 | each rotation of the hash moves the low bits up by its own count and brings the high bits round |
| WordValues.ShiftValues | internal/wire/partition.go:116-120 | the right shifts of the final mix are quotients by 2^29, 2^32 and 2^33 |
| Wire.NewMutationId | internal/wire/types.go:82-87 | the buffer writes give the big-endian epoch followed by the big-endian counter |
| Wire.PutUint64 | internal/wire/types.go:84-85 | the shifted byte writes store the big-endian number and leave the rest of the buffer alone |
| Wire.MintingBijective | internal/wire/types.go:76-97 | minting is a bijection between (epoch, counter) pairs and 16-byte ids, with NodeEpoch and Counter as inverse |
| Wire.IdOrder | internal/wire/types.go:76-97 | byte order on ids is lexicographic order on (epoch, counter) |
| Wire.WriteOptions.ValidateExact | internal/wire/types.go:172-189 | a timeout passes exactly when it is k milliseconds for some uint32 k |
| Wire.TtlMillisExact | internal/wire/types.go:281-289 | TTL conversion succeeds exactly on non-negative whole milliseconds and loses nothing |
| Wire.ProtocolRange.ValidateExact | internal/wire/protocol.go:32-37 | a range is valid exactly when it is ordered and starts above zero |
| Wire.ProtocolRange.NegotiateIsHighestCommon | internal/wire/protocol.go:29-60 | negotiation refuses exactly the invalid ranges on either side, else finds the highest version both sides speak and fails exactly when there is none; it is symmetric |
| Control.ValidateBatch | internal/control/types.go:159-183 | the loop answers the verdict stated over integers, despite its wrapping successor, error kinds and their order included |
| Control.BatchAccepted | internal/control/types.go:158-183 | a batch is accepted exactly when its events are valid, owned, contiguous and within both limits |
| BatchCutting.AcceptedIsRunThatFits | internal/control/types.go:158-183 | the accepted batches are exactly the non-empty runs within both limits, under a non-zero generation |
| Control.ErrorNamesFirstFault | internal/control/types.go:170-178 | a per-event error is that of the first event at fault, and all before it are clean |
| Control.EventErrors | internal/control/types.go:214-234 | which error an event gets, for every event, and that it gets none exactly when it is valid |
| Control.GapErrors | internal/control/types.go:170-176 | a gap is reported on the event after it, when that event is itself valid |
| Control.BatchErrors | internal/control/types.go:159-182 | which error a batch gets: generation, emptiness and count first, then its first event at fault, then its size |
| Control.AcceptedSequences | internal/control/types.go:169-178 | event i of an accepted batch has sequence first+i over the integers, and the last stays below 2^64 |
| Control.WrappedSuccessor | internal/control/types.go:174-178 | the wrapping successor check is exact precisely because a zero sequence is refused |
| Control.EstimatedEncodedSize | internal/control/types.go:188-194 | the accumulator loop computes the estimate as a sum over the events |
| Control.EstimateFormula | internal/control/types.go:188-194 | the estimate is 128 bytes, 64 per event and the bytes of all keys |
| Control.ValidateHello | internal/control/types.go:86-110 | the loop with its seen set answers the verdict of the specification |
| Control.HelloAcceptedExactly | internal/control/types.go:86-110 | a well-formed hello is accepted exactly within the limit, with distinct streams and non-zero generations |
| Control.WatermarkErrorNamesFirstFault | internal/control/types.go:99-108 | a list error names the first entry at fault: a zero generation, or a repeat of an earlier stream |
| Control.ValidateSubscribe | internal/control/types.go:125-143 | the loop with its seen set answers the verdict of the specification |
| Control.SubscribeAcceptedExactly | internal/control/types.go:125-143 | a subscribe is accepted exactly when non-empty, within the limit and free of repeats; a duplicate error is the first repeat |
| Control.ReplayUnavailable.ValidateExact | internal/control/types.go:292-306 | the report is accepted exactly when 0 < from < oldest <= head+1 over the integers |
| Control.ScalarsAcceptedExactly | internal/control/types.go:244-349 | when acknowledgements, checkpoints, replay requests, confirms and control errors are accepted, and their errors |
| BatchCutting.SliceAccepted | internal/control/types.go:158-194 | every non-empty contiguous slice of an accepted batch is accepted |
| BatchCutting.JoinAccepted | internal/control/types.go:158-194 | two accepted batches of one stream join exactly when they abut and both limits still hold |
| BatchCutting.GreedyCutIsCut | internal/control/types.go:185-187 | any contiguous run of valid events can be split into accepted batches that concatenate to it |
| BatchCutting.GreedyCutIsShortest | internal/control/types.go:185-187 | filling each batch as far as the limits allow gives the fewest accepted batches |
| ControlProto.BatchRoundTrip | internal/control/convert.go:48-67 | decoding an encoded batch succeeds exactly when the batch is valid, and returns it |
| ControlProto.BatchNotNarrowed | internal/control/convert.go:247-281 | an accepted protobuf batch re-encodes to the same fields, over all int32 kinds, id lengths and absent submessages |
| ControlProto.EventDecodeErrors | internal/control/convert.go:256-280 | which error an event gets on decoding, over nil events, all id lengths and all int32 kinds |
| ControlProto.DecodeErrorNamesFirst | internal/control/convert.go:256-280 | a batch that does not decode reports its first undecodable event |
| ControlProto.ProtoHello | internal/control/convert.go:12-29 | the append loop encodes every watermark in order |
| ControlProto.FromProtoHello | internal/control/convert.go:199-232 | the decoding loop answers the specified result, first error included |
| ControlProto.HelloRoundTrip | internal/control/convert.go:12-29 | decoding an encoded hello gives exactly the hello and its verdict |
| ControlProto.HelloNotNarrowed | internal/control/convert.go:199-232 | an accepted protobuf hello re-encodes to the same fields; no version wraps to 16 bits |
| ControlProto.ClientRoundTrip | internal/control/convert.go:116-158 | every client body survives its envelope with exactly its verdict |
| ControlProto.ServerRoundTrip | internal/control/convert.go:161-196 | every server body survives its envelope exactly when it is valid |
| ControlProto.NilRefused | internal/control/convert.go:366-403 | nil envelopes, unset bodies and nil messages are refused as invalid messages |
| ControlProto.NarrowingRefused | internal/control/convert.go:434-467 | versions above 16 bits and unknown statuses are refused, not truncated |
| ControlProto.ClientNotNarrowed | internal/control/convert.go:366-384 | whatever a client envelope decodes to re-encodes to the same envelope |
| ControlProto.ServerNotNarrowed | internal/control/convert.go:387-403 | whatever a server envelope decodes to re-encodes to the same envelope |
| ControlSize.BatchWithinEstimate | internal/control/types.go:179-194 | an accepted batch, encoded in its envelope, is within EstimatedEncodedSize by 106 bytes and 6 per event, and the estimate within the limit |
| ControlSize.EventSize | internal/control/types.go:30-32 | tag, length and body of an event take at most 58 bytes more than its key |
| ControlSize.EstimateIsUpperBound | internal/control/types.go:185-194 | the estimate bounds the encoding of every batch, accepted or not, over all kinds and key lengths, up to an estimate of 2 GiB |
| ControlSize.ClusterIdGuardExact | internal/control/types.go:20-26 | a cluster id length is safe for every accepted hello if and only if it is at most 3022808 bytes |
| ControlSize.HelloFitsExactly | internal/control/types.go:20-26 | an accepted hello is within the limit exactly when its cluster id leaves room for the other fields and ten bytes of framing |
| ControlSize.HelloFits | internal/control/types.go:20-26 | every accepted hello whose cluster id has at most 3022808 bytes is within the limit |
| ControlSize.AcceptedHelloTooLarge | internal/control/types.go:86-110 | an accepted hello with a cluster id one byte longer is not within the limit |
| ControlSize.ClientMessageFits | internal/control/types.go:20-26 | every other accepted client message takes at most 20506 bytes, with up to 4096 subscriptions |
| ControlSize.ServerMessageFits | internal/control/types.go:20-26 | every other accepted server message takes at most 264 bytes |
| ControlDecodable.ServerEncodingInjective | api/proto/gossipcache/v1/control.proto:30-119 | the encoding loses nothing: two server messages, valid or not, encode alike exactly when they are equal |
| ControlDecodable.ClientEncodingInjective | api/proto/gossipcache/v1/control.proto:20-126 | the same for client messages |
| ControlDecodable.ServerEnvelopeDecodable | api/proto/gossipcache/v1/control.proto:30-119 | a server envelope is determined by its bytes, over all int32 kinds and statuses, all id lengths and absent submessages |
| ControlDecodable.ClientEnvelopeDecodable | api/proto/gossipcache/v1/control.proto:20-126 | the same for client envelopes, over all uint32 versions |
| ControlDecodable.NilEncodesAsEmpty | internal/control/convert.go:296-300 | a nil body is an empty one on the wire, so envelopes are compared without nil bodies |
| ControlBytes.EventBytes | api/proto/gossipcache/v1/control.proto:75-82 | the records of an event carry the field numbers and wire types of the schema |
| ControlBytes.BatchBytes | api/proto/gossipcache/v1/control.proto:84-90 | the same for a batch in its envelope |
| ControlBytes.CheckpointBytes | api/proto/gossipcache/v1/control.proto:99-103 | the same for a checkpoint |
| ControlBytes.ReplayUnavailableBytes | api/proto/gossipcache/v1/control.proto:113-119 | the same for a replay report |
| ControlBytes.ControlErrorBytes | api/proto/gossipcache/v1/control.proto:44-48 | the same for a control error |
| ControlBytes.HelloBytes | api/proto/gossipcache/v1/control.proto:51-68 | the same for a hello with a subscription |
| ControlBytes.SubscribeBytes | api/proto/gossipcache/v1/control.proto:70-73 | the same for a subscribe, its ids packed in one record |
| ControlBytes.AcknowledgementBytes | api/proto/gossipcache/v1/control.proto:93-96 | the same for an acknowledgement |
| ControlBytes.ReplayRequestBytes | api/proto/gossipcache/v1/control.proto:105-109 | the same for a replay request |
| ControlBytes.ConfirmBytes | api/proto/gossipcache/v1/control.proto:122-126 | the same for a confirm |
| ProtoEncoding.VarintWidth | api/proto/gossipcache/v1/control.proto:75-90 | a k-byte varint holds every number below 2^(7k) |
| ProtoEncoding.VarintDecodable | api/proto/gossipcache/v1/control.proto:75-90 | a varint and what follows it are determined by the bytes |
| ProtoEncoding.NegativeEnumSize | api/proto/gossipcache/v1/control.proto:75-90 | an enum is sign-extended: a negative value takes ten varint bytes |
| ProtoDecodable.LenDecodable | api/proto/gossipcache/v1/control.proto:75-90 | a length-delimited record and what follows it are determined by the bytes |
| ProtoDecodable.RepeatedDecodable | api/proto/gossipcache/v1/control.proto:84-90 | a repeated message is read back element by element, up to the next field |
| Text.Utf8Decodable | api/proto/gossipcache/v1/control.proto:47-64 | a string is determined by its UTF-8 bytes |
| Text.Utf8Examples | api/proto/gossipcache/v1/control.proto:47-64 | characters of one to four bytes encode as in section 7 of RFC 3629 |
| Buffers.CopyBytes | internal/wire/types.go:276-278 | a copy has equal contents and fresh storage, and is nil exactly when there is nothing to copy |
| Buffers.BytesEqual | internal/rpc/dedup.go:65-66 | the byte loop compares contents, nil and empty alike |
| ControlHeap.CopyKeysInPlace | internal/control/types.go:199-201 | the in-place loop keeps the contents and gives every event a fresh key of its own |
| ControlHeap.CloneBatch | internal/control/types.go:197-203 | a clone has equal contents, a fresh event array and pairwise distinct fresh keys, even when source events share one |
| ControlHeap.ProtoHeapEvent | internal/control/convert.go:54-65 | one iteration encodes its event into a fresh key and a fresh id buffer of that iteration |
| ControlHeap.EncodeEventList | internal/control/convert.go:54-65 | the append loop encodes every event in order, into fresh, pairwise distinct buffers |
| ControlHeap.ProtoInvalidationBatch | internal/control/convert.go:48-67 | the encoding is that of the values, all key and id buffers are fresh and pairwise distinct, and the source is unchanged |
| ControlHeap.CopyMutationId | internal/control/convert.go:405-419 | exactly sixteen bytes are copied, every other length and nil refused |
| ControlHeap.FromProtoHeapEvent | internal/control/convert.go:256-279 | one iteration decodes its event, or fails with the first of its errors, into a fresh key |
| ControlHeap.DecodeEventList | internal/control/convert.go:256-279 | the loop stops at the first event that does not decode, else gives fresh keys and the specified events |
| ControlHeap.FromProtoInvalidationBatch | internal/control/convert.go:247-281 | the decoded batch or error is that of the values, with fresh, pairwise distinct keys |
| ControlHeap.WrapServerMessage | internal/control/convert.go:161-196 | the envelope of a body is that of the values, and a batch inside it owns fresh, pairwise distinct buffers |
| ControlHeap.UnwrapServerMessage | internal/control/convert.go:387-403 | unpacking answers as on values, unset bodies and nil messages included, with fresh, pairwise distinct keys |
| ControlHeap.SendAndReceive | internal/control/convert_test.go:13-51 | a server message sent through its envelope and decoded comes back equal exactly when valid, sharing no storage with the original |
| Rpc.AcceptedVersionsCompare | internal/rpc/types.go:159-164 | two minimum versions accepted for a key name its partition and are equal or ordered exactly one way |
| Rpc.GetAcceptedExactly | internal/rpc/types.go:150-164 | a read is accepted exactly within the bounds and with no minimum version or one of its key's partition, and which error it gets otherwise |
| Rpc.NewestIsGreatest | internal/wire/types.go:57-59 | among any versions accepted for a key, one is newer than all others exactly when its sequence is the greatest |
| Rpc.EveryPartitionHasVersions | internal/wire/types.go:198-209 | for every partition and sequence some request with that minimum version is accepted |
| Rpc.IsNewerStrictOrder | internal/wire/types.go:55-59 | IsNewer is a strict order that never crosses partitions, and within one the higher sequence is the newer |
| Rpc.CommittedIsNewer | internal/wire/record.go:24-29 | a tag is committed exactly when it is newer than the zero sequence of its partition |
| Rpc.SessionAcceptedExactly | internal/rpc/types.go:57-138 | when handshake requests, handshakes, status probes and hub statuses are accepted, over every profile, health and status |
| Rpc.SessionErrors | internal/rpc/types.go:57-138 | an error on a session message names a fault the message has |
| Rpc.GetResponseAcceptedExactly | internal/rpc/types.go:193-209 | a read result is accepted exactly when it carries a committed record on OK and no record data on any other get status |
| Rpc.GetResponseErrors | internal/wire/record.go:43-72 | an error on a read result names a fault it has |
| Rpc.MutationRequest.OptionsExact | internal/rpc/types.go:276-283 | the timeout projection never overflows and always passes the timeout checks |
| Rpc.MutationAcceptedExactly | internal/rpc/types.go:234-266 | a mutation is accepted exactly on these bounds; its timeout and W are never the reason for refusal |
| Rpc.MutationErrors | internal/rpc/types.go:234-266 | an error on a mutation names a fault it has |
| Rpc.MutationResponseErrors | internal/rpc/types.go:296-314 | an error on a mutation outcome names a fault it has |
| RpcProto.HandshakeRequestRoundTrip | internal/rpc/convert.go:14-21 | decoding the encoding succeeds exactly on valid requests and returns them |
| RpcProto.HandshakeRoundTrip | internal/rpc/convert.go:24-33 | the same for the hub's handshake |
| RpcProto.HubStatusRequestRoundTrip | internal/rpc/convert.go:36-38 | the same for a status probe |
| RpcProto.HubStatusRoundTrip | internal/rpc/convert.go:41-48 | decoding the encoding succeeds exactly on the hub statuses that are accepted and have a known storage profile, which Validate does not always ask for |
| RpcProto.ValidHubStatusRefused | internal/rpc/types.go:117-138 | some valid hub status is refused after encoding |
| RpcProto.GetRequestRoundTrip | internal/rpc/convert.go:51-60 | the same for a read, with and without a minimum version |
| RpcProto.GetResponseRoundTrip | internal/rpc/convert.go:63-72 | the same for a read result, over every status and kind |
| RpcProto.MutationRequestRoundTrip | internal/rpc/convert.go:75-88 | the same for a mutation |
| RpcProto.MutationResponseRoundTrip | internal/rpc/convert.go:91-97 | the same for a mutation outcome, whose valid values are those with a committed version exactly on OK and confirm timeout |
| RpcProto.SessionNotNarrowed | internal/rpc/convert.go:152-228 | accepted session messages re-encode to the same fields; no enum or version wraps |
| RpcProto.ReadsNotNarrowed | internal/rpc/convert.go:231-268 | accepted reads re-encode to the same fields, an absent version as the zero version |
| RpcProto.MutationsNotNarrowed | internal/rpc/convert.go:271-324 | accepted mutations re-encode to the same fields; W never wraps to 16 bits |
| RpcProto.MutationDecodeErrors | internal/rpc/convert.go:271-294 | the faults of a mutation found before its Validate, in order, over all lengths, counts and int32 enums |
| RpcProto.NarrowingRefused | internal/rpc/convert.go:152-324 | nil messages, versions above 16 bits and unknown enum values are refused, not truncated |
| RpcProto.OpNumbers | internal/rpc/convert.go:138-147 | operations keep their schema numbers, and only set and delete come back |
| RpcHeap.TakeFingerprint | internal/rpc/dedup.go:46-56 | a fingerprint holds its own copies, so later writes to the request cannot change it |
| RpcHeap.MatchFingerprints | internal/rpc/dedup.go:59-77 | the early-exit comparison passes exactly on equal retained contents, whichever buffers hold them |
| RpcHeap.CheckRetry | internal/rpc/dedup.go:45-77 | a retry matches the fingerprint of a first request exactly when the two agree on everything but mutation id, timeout and hub generation |
| RpcHeap.CloneMutation | internal/rpc/types.go:269-273 | a clone has equal contents and fresh, distinct key and value buffers |
| RpcHeap.EncodeMutation | internal/rpc/convert.go:75-88 | encoding copies key, value and id into fresh, distinct buffers |
| RpcHeap.DecodeMutation | internal/rpc/convert.go:271-307 | decoding answers as on values and copies key and value |
| RpcHeap.SendMutation | internal/rpc/convert_test.go:43-88 | a mutation sent and decoded is equal exactly when valid, matches the original, and shares no buffer with it |
| RpcHeap.EncodeGetRequest | internal/rpc/convert.go:51-60 | encoding a read copies its key |
| RpcHeap.DecodeGetRequest | internal/rpc/convert.go:231-244 | decoding a read answers as on values and copies its key |
| RpcHeap.EncodeGetResponse | internal/rpc/convert.go:63-72 | encoding a read result copies its value |
| RpcHeap.DecodeGetResponse | internal/rpc/convert.go:247-268 | decoding a read result answers as on values and copies its value |
| Dedup.DedupKeysDistinct | internal/rpc/dedup.go:14-19 | dedup keys of minted ids are equal exactly when node, epoch and counter are |
| Dedup.DedupKeyValid | internal/rpc/dedup.go:22-30 | a minted key is valid exactly when the node is not zero and epoch and counter are not both zero |
| Dedup.MatchesExactly | internal/rpc/dedup.go:32-77 | requests match exactly when they agree on everything but mutation id, timeout and hub generation |
| Dedup.MatchesIsEquivalence | internal/rpc/dedup.go:58-77 | matching is an equivalence relation |
| Dedup.FingerprintSurvivesWire | internal/rpc/dedup.go:45-77 | a decoded request matches the one sent, and exactly the requests that one matches |

## Left out

- ControlSize.EstimateIsUpperBound: asks an estimate of at most 2 GiB, the largest message protobuf can encode, because a longer key needs a wider length prefix than the per-event budget provides for.
- The hub store, log, replay ring, node slots and stream consumer: they exist only as design documents.
- gRPC, TLS, and the protobuf library: only message shapes and the encoding of control messages are modelled; invalid UTF-8, which the library refuses to encode, cannot be written as a model string.
- Pointers to protobuf structs and to `MinVersion` are values: aliasing of those structs is not modelled, that of the byte buffers is.
- Spare capacity of slices and sub-slices of one array: a buffer is a whole array.
- A decoded value returned beside a validation error: the model returns the error.
- Typed-nil bodies and unsupported types in `ProtoClientMessage` and `ProtoServerMessage`: a body is one of the listed messages.
- Error text, status classes and status names.
- `Hello.Clone`, `Subscribe.Clone` and the `wire` request `Clone`s: plain copies.
- internal/l1 and the port and interval constants: nothing beyond the checks of `record.go`.
