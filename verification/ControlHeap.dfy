/**
  Invalidation batches on the heap: Clone and the protobuf conversions, with the
  buffers they allocate. Each method is tied to the value-level function of the
  same conversion, and promises who owns which buffer afterwards.
*/
module ControlHeap {
  import opened Words
  import opened Outcomes
  import opened Wire
  import opened Buffers
  import opened Control
  import opened ControlProto

  type HeapEvent = InvalidationEvent<Buffer>

  datatype HeapBatch = HeapBatch(streamId: U32, hubGeneration: U64, events: array?<HeapEvent>)

  // ---------- Views ----------

  function EventsOf(m: HeapBatch): seq<HeapEvent>
    reads m.events
  {
    if m.events == null then [] else m.events[..]
  }

  function KeysOf(es: seq<HeapEvent>): (keys: seq<Buffer>)
    ensures |keys| == |es| && forall i | 0 <= i < |es| :: keys[i] == es[i].key
  {
    seq(|es|, i requires 0 <= i < |es| => es[i].key)
  }

  function EventView(e: HeapEvent): Event
    reads e.key
  {
    InvalidationEvent(e.streamSequence, Contents(e.key), e.version, e.kind, e.mutationId)
  }

  function EventsView(es: seq<HeapEvent>): (vs: seq<Event>)
    reads set i | 0 <= i < |es| :: es[i].key
    ensures |vs| == |es| && forall i | 0 <= i < |es| :: vs[i] == EventView(es[i])
  {
    if |es| == 0 then [] else EventsView(es[..|es| - 1]) + [EventView(es[|es| - 1])]
  }

  function View(m: HeapBatch): InvalidationBatch
    reads m.events, set i | 0 <= i < |EventsOf(m)| :: EventsOf(m)[i].key
  {
    InvalidationBatch(m.streamId, m.hubGeneration, EventsView(EventsOf(m)))
  }

  // ---------- Clone ----------

  /** The loop of Clone: give each event of a private array its own copy of its key. */
  method CopyKeysInPlace(events: array<HeapEvent>)
    modifies events
    ensures EventsView(events[..]) == old(EventsView(events[..]))
    ensures OwnsBuffers(KeysOf(events[..]))
  {
    hide Contents, EventsView;
    ghost var source, want := events[..], EventsView(events[..]);
    for i := 0 to events.Length
      invariant events[i..] == source[i..]
      invariant forall j | 0 <= j < |source| :: EventView(source[j]) == want[j]
      invariant forall j | 0 <= j < i :: EventView(events[j]) == want[j]
      invariant forall j | 0 <= j < i && events[j].key != null :: fresh(events[j].key)
      invariant forall j, k | 0 <= j < k < i && events[j].key != null :: events[j].key != events[k].key
    {
      assert events[i] == source[i];
      var key := CopyBytes(events[i].key);
      events[i] := events[i].(key := key);
    }
    assert EventsView(events[..]) == want;
  }

  method CloneBatch(m: HeapBatch) returns (c: HeapBatch)
    ensures View(c) == old(View(m)) == View(m)
    ensures c.events != null ==> fresh(c.events)
    ensures OwnsBuffers(KeysOf(EventsOf(c)))
  {
    hide EventsView, Contents, KeysOf, Disjoint;
    var source := EventsOf(m);
    if |source| == 0 {
      DisjointEmpty();
      return m.(events := null);
    }
    var events := new HeapEvent[|source|](i requires 0 <= i < |source| => source[i]);
    assert events[..] == source;
    CopyKeysInPlace(events);
    c := m.(events := events);
  }

  // ---------- Protobuf values ----------

  type HeapPbEvent = PbInvalidationEvent<Buffer>
  type HeapPbBatch = PbInvalidationBatch<Buffer>

  function KeyOf(p: Option<HeapPbEvent>): Buffer {
    if p.None? then null else p.value.key
  }

  function IdOf(p: Option<HeapPbEvent>): Buffer {
    if p.None? || p.value.mutationId.None? then null else p.value.mutationId.value
  }

  /** Every buffer the events refer to, keys and ids alternating. */
  function BuffersOf(ps: seq<Option<HeapPbEvent>>): (bs: seq<Buffer>)
    ensures |bs| == 2 * |ps|
    ensures forall i | 0 <= i < |ps| :: bs[2 * i] == KeyOf(ps[i]) && bs[2 * i + 1] == IdOf(ps[i])
  {
    if |ps| == 0 then []
    else
      var last := ps[|ps| - 1];
      BuffersOf(ps[..|ps| - 1]) + [KeyOf(last), IdOf(last)]
  }

  function PbEventView(p: Option<HeapPbEvent>): Option<PbEvent>
    reads KeyOf(p), IdOf(p)
  {
    if p.None? then None
    else
      var e := p.value;
      Some(PbInvalidationEvent(e.streamSequence, Contents(KeyOf(p)), e.version, e.kind,
        if e.mutationId.None? then None else Some(Contents(IdOf(p)))))
  }

  function PbEventsView(ps: seq<Option<HeapPbEvent>>): (vs: seq<Option<PbEvent>>)
    reads set i | 0 <= i < |ps| :: KeyOf(ps[i])
    reads set i | 0 <= i < |ps| :: IdOf(ps[i])
    ensures |vs| == |ps| && forall i | 0 <= i < |ps| :: vs[i] == PbEventView(ps[i])
  {
    if |ps| == 0 then [] else PbEventsView(ps[..|ps| - 1]) + [PbEventView(ps[|ps| - 1])]
  }

  function PbView(p: HeapPbBatch): PbBatch
    reads set i | 0 <= i < |p.events| :: KeyOf(p.events[i])
    reads set i | 0 <= i < |p.events| :: IdOf(p.events[i])
  {
    PbInvalidationBatch(p.streamId, p.hubGeneration, PbEventsView(p.events))
  }

  // ---------- Encoding ----------

  /** One iteration of the encoding loop; the id slice is of the iteration's own copy of the event. */
  method ProtoHeapEvent(e: HeapEvent) returns (p: HeapPbEvent)
    ensures PbEventView(Some(p)) == Some(ProtoEvent(old(EventView(e))))
    ensures OwnsBuffers([KeyOf(Some(p)), IdOf(Some(p))])
  {
    var key := CopyBytes(e.key);
    var id := Materialize(e.mutationId);
    p := PbInvalidationEvent(e.streamSequence, key, Some(PbVersionTag(e.version.partitionId, e.version.sequence)),
                             e.kind, Some(id));
  }

  lemma Snoc(ps: seq<Option<HeapPbEvent>>, p: Option<HeapPbEvent>)
    ensures PbEventsView(ps + [p]) == PbEventsView(ps) + [PbEventView(p)]
    ensures BuffersOf(ps + [p]) == BuffersOf(ps) + [KeyOf(p), IdOf(p)]
  {
  }

  /** Appending one encoded event keeps what was encoded, and the buffers apart. */
  method AppendProtoEvent(events: seq<Option<HeapPbEvent>>, e: HeapEvent) returns (more: seq<Option<HeapPbEvent>>)
    requires Disjoint(BuffersOf(events))
    requires forall b | b in BuffersOf(events) && b != null :: allocated(b)
    ensures PbEventsView(more) == old(PbEventsView(events)) + [Some(ProtoEvent(old(EventView(e))))]
    ensures Disjoint(BuffersOf(more))
    ensures forall b | b in BuffersOf(more) && b != null :: allocated(b) && (fresh(b) || b in BuffersOf(events))
  {
    hide ProtoEvent, EventView, PbEventView, PbEventsView, Contents, BuffersOf, Disjoint;
    ghost var owned, before := BuffersOf(events), PbEventsView(events);
    var p := ProtoHeapEvent(e);
    assert PbEventsView(events) == before;
    more := events + [Some(p)];
    Snoc(events, Some(p));
    DisjointJoin(owned, [KeyOf(Some(p)), IdOf(Some(p))]);
  }

  /** The encoding loop. */
  method EncodeEventList(source: seq<HeapEvent>) returns (events: seq<Option<HeapPbEvent>>)
    ensures PbEventsView(events) == ProtoEvents(old(EventsView(source)))
    ensures OwnsBuffers(BuffersOf(events))
  {
    hide ProtoEvent, ProtoEvents, PbEventView, PbEventsView, BuffersOf, EventsView, KeyOf, IdOf, Disjoint;
    ghost var want := EventsView(source);
    events := [];
    DisjointEmpty();
    for i := 0 to |source|
      invariant PbEventsView(events) == ProtoEvents(want)[..i]
      invariant Disjoint(BuffersOf(events))
      invariant forall b | b in BuffersOf(events) && b != null :: allocated(b) && fresh(b)
    {
      assert EventView(source[i]) == want[i];
      events := AppendProtoEvent(events, source[i]);
    }
  }

  method ProtoInvalidationBatch(m: HeapBatch) returns (out: HeapPbBatch)
    ensures PbView(out) == ProtoBatch(old(View(m)))
    ensures View(m) == old(View(m))
    ensures OwnsBuffers(BuffersOf(out.events))
  {
    hide PbEventsView, ProtoEvents, BuffersOf, Disjoint;
    var events := EncodeEventList(EventsOf(m));
    out := PbInvalidationBatch(m.streamId, m.hubGeneration, events);
  }

  // ---------- Decoding ----------

  /** mutationIDFromProto: copy exactly sixteen bytes into an array value. */
  method CopyMutationId(raw: Option<Buffer>) returns (r: Result<MutationId>)
    ensures r == MutationIdFromProto(if raw.None? then None else Some(Contents(raw.value)))
  {
    if raw.None? || raw.value == null || raw.value.Length == 0 {
      return Failure(MutationIdRequired);
    }
    if raw.value.Length != 16 {
      return Failure(MutationIdLength);
    }
    var id := new Byte[16];
    for i := 0 to 16
      invariant id[..i] == raw.value[..i]
    {
      id[i] := raw.value[i];
    }
    assert id[..] == raw.value[..];
    return Success(id[..]);
  }

  /** One iteration of the decoding loop. */
  method FromProtoHeapEvent(p: Option<HeapPbEvent>) returns (r: Result<HeapEvent>)
    ensures match r
      case Success(e) =>
        FromProtoEvent(old(PbEventView(p))) == Success(EventView(e)) && (e.key != null ==> fresh(e.key))
      case Failure(err) => FromProtoEvent(old(PbEventView(p))) == Failure(err)
  {
    if p.None? {
      return Failure(InvalidMessage);
    }
    var id := CopyMutationId(p.value.mutationId);
    if id.Failure? {
      return Failure(id.error);
    }
    var kind := RecordKindFromProto(p.value.kind);
    if kind.Failure? {
      return Failure(kind.error);
    }
    var key := CopyBytes(p.value.key);
    return Success(InvalidationEvent(p.value.streamSequence, key, VersionFromProto(p.value.version),
                                     kind.value, id.value));
  }

  lemma {:induction false} EventsFail(ps: seq<Option<PbEvent>>, i: nat, n: nat)
    requires i <= n <= |ps| && FromProtoEvents(ps, i).Failure?
    ensures FromProtoEvents(ps, n) == FromProtoEvents(ps, i)
    decreases n
  {
    if i < n {
      EventsFail(ps, i, n - 1);
    }
  }

  /** Appending one decoded event keeps what was decoded, and the keys apart. */
  method AppendFromProto(events: seq<HeapEvent>, p: Option<HeapPbEvent>) returns (r: Result<seq<HeapEvent>>)
    requires Disjoint(KeysOf(events))
    requires forall k | k in KeysOf(events) && k != null :: allocated(k)
    ensures match r
      case Success(more) =>
        && FromProtoEvent(old(PbEventView(p))).Success?
        && EventsView(more) == old(EventsView(events)) + [FromProtoEvent(old(PbEventView(p))).value]
        && Disjoint(KeysOf(more))
        && forall k | k in KeysOf(more) && k != null :: allocated(k) && (fresh(k) || k in KeysOf(events))
      case Failure(err) => FromProtoEvent(old(PbEventView(p))) == Failure(err)
  {
    hide FromProtoEvent, PbEventView, EventView, Contents;
    ghost var owned := KeysOf(events);
    var event := FromProtoHeapEvent(p);
    if event.Failure? {
      return Failure(event.error);
    }
    var more := events + [event.value];
    assert more[..|events|] == events;
    assert KeysOf(more) == owned + [event.value.key];
    assert Disjoint(KeysOf(more)) by {
      DisjointJoin(owned, [event.value.key]);
    }
    return Success(more);
  }

  /** The decoding loop, stopping at the first event that does not decode. */
  method DecodeEventList(ps: seq<Option<HeapPbEvent>>) returns (r: Result<seq<HeapEvent>>)
    ensures match r
      case Success(events) =>
        FromProtoEvents(old(PbEventsView(ps)), |ps|) == Success(EventsView(events)) && OwnsBuffers(KeysOf(events))
      case Failure(err) => FromProtoEvents(old(PbEventsView(ps)), |ps|) == Failure(err)
  {
    hide FromProtoEvent, EventView, EventsView, PbEventsView, KeysOf, Disjoint;
    ghost var want := PbEventsView(ps);
    var events: seq<HeapEvent> := [];
    DisjointEmpty();
    for i := 0 to |ps|
      invariant FromProtoEvents(want, i) == Success(EventsView(events))
      invariant Disjoint(KeysOf(events))
      invariant forall k | k in KeysOf(events) && k != null :: allocated(k) && fresh(k)
    {
      assert PbEventView(ps[i]) == want[i];
      var more := AppendFromProto(events, ps[i]);
      if more.Failure? {
        EventsFail(want, i + 1, |ps|);
        return Failure(more.error);
      }
      events := more.value;
    }
    return Success(events);
  }

  method FromProtoInvalidationBatch(p: Option<HeapPbBatch>) returns (r: Result<HeapBatch>)
    ensures match r
      case Success(m) =>
        && p.Some?
        && FromProtoBatch(Some(old(PbView(p.value)))) == Success(View(m))
        && m.events != null && fresh(m.events)
        && OwnsBuffers(KeysOf(EventsOf(m)))
      case Failure(err) =>
        FromProtoBatch(if p.None? then None else Some(old(PbView(p.value)))) == Failure(err)
  {
    hide FromProtoEvents, FromProtoEvent, PbEventsView, PbEventView, EventsView, EventView, Contents, KeyOf, IdOf;
    hide Disjoint, KeysOf, BatchVerdict;
    if p.None? {
      return Failure(InvalidMessage);
    }
    var events := DecodeEventList(p.value.events);
    if events.Failure? {
      return Failure(events.error);
    }
    var slice := new HeapEvent[|events.value|](i requires 0 <= i < |events.value| => events.value[i]);
    assert slice[..] == events.value;
    var m := HeapBatch(p.value.streamId, p.value.hubGeneration, slice);
    var verdict := ValidateBatch(View(m));
    if verdict.Fail? {
      return Failure(verdict.error);
    }
    return Success(m);
  }

  // ---------- The server envelope ----------

  type HeapServer = ServerBody<HeapBatch>
  type HeapPbServerMessage = PbServerMessage<Buffer>

  /** The batch a body carries, or an empty one. */
  function BatchOf(b: HeapServer): HeapBatch {
    if b.BatchBody? then b.batch else HeapBatch(0, 0, null)
  }

  function PlainView<M, N>(b: ServerBody<M>): ServerBody<N>
    requires !b.BatchBody?
  {
    match b
    case CheckpointBody(m) => CheckpointBody(m)
    case ReplayUnavailableBody(m) => ReplayUnavailableBody(m)
    case ControlErrorBody(m) => ControlErrorBody(m)
  }

  function ServerView(b: HeapServer): Server
    reads BatchOf(b).events, set i | 0 <= i < |EventsOf(BatchOf(b))| :: EventsOf(BatchOf(b))[i].key
  {
    if b.BatchBody? then BatchBody(View(BatchOf(b))) else PlainView<HeapBatch, InvalidationBatch>(b)
  }

  /** The batch inside an envelope, or an empty one. */
  function PbBatchOf(p: HeapPbServerMessage): HeapPbBatch {
    if p.body.Some? && p.body.value.PbBatchBody? && p.body.value.batch.Some? then p.body.value.batch.value
    else PbInvalidationBatch(0, 0, [])
  }

  function PbPlainView<A, B>(p: PbServerBody<A>): PbServerBody<B>
    requires !p.PbBatchBody?
  {
    match p
    case PbCheckpointBody(m) => PbCheckpointBody(m)
    case PbReplayUnavailableBody(m) => PbReplayUnavailableBody(m)
    case PbControlErrorBody(m) => PbControlErrorBody(m)
  }

  function PbServerView(p: HeapPbServerMessage): PbServerMessage<Bytes>
    reads set i | 0 <= i < |PbBatchOf(p).events| :: KeyOf(PbBatchOf(p).events[i])
    reads set i | 0 <= i < |PbBatchOf(p).events| :: IdOf(PbBatchOf(p).events[i])
  {
    if p.body.None? then PbServerMessage(None)
    else if p.body.value.PbBatchBody? then
      PbServerMessage(Some(PbBatchBody(if p.body.value.batch.None? then None else Some(PbView(PbBatchOf(p))))))
    else PbServerMessage(Some(PbPlainView<Buffer, Bytes>(p.body.value)))
  }

  method WrapServerMessage(b: HeapServer) returns (p: HeapPbServerMessage)
    ensures PbServerView(p) == ProtoServerMessage(old(ServerView(b)))
    ensures ServerView(b) == old(ServerView(b))
    ensures OwnsBuffers(BuffersOf(PbBatchOf(p).events))
  {
    hide ProtoBatch, EventsView, PbEventsView, Disjoint;
    if b.BatchBody? {
      var batch := ProtoInvalidationBatch(b.batch);
      p := PbServerMessage(Some(PbBatchBody(Some(batch))));
    } else {
      DisjointEmpty();
      p := PbServerMessage(Some(ProtoPlainBody<HeapBatch, Buffer>(b)));
    }
  }

  method UnwrapServerMessage(p: Option<HeapPbServerMessage>) returns (r: Result<HeapServer>)
    ensures match r
      case Success(b) =>
        && p.Some?
        && FromProtoServerMessage(Some(old(PbServerView(p.value)))) == Success(ServerView(b))
        && OwnsBuffers(KeysOf(EventsOf(BatchOf(b))))
      case Failure(err) =>
        FromProtoServerMessage(if p.None? then None else Some(old(PbServerView(p.value)))) == Failure(err)
  {
    hide FromProtoBatch, EventsView, PbEventsView, Disjoint;
    if p.None? || p.value.body.None? {
      return Failure(InvalidMessage);
    }
    if p.value.body.value.PbBatchBody? {
      var batch := FromProtoInvalidationBatch(p.value.body.value.batch);
      if batch.Failure? {
        NilBatchRefused();
        return Failure(batch.error);
      }
      return Success(BatchBody(batch.value));
    }
    DisjointEmpty();
    return PlainBodyFromProto<HeapBatch, Buffer>(p.value.body.value);
  }

  lemma NilBatchRefused()
    ensures FromProtoBatch(None) == Failure(InvalidMessage)
  {
  }

  /**
    Sending a server message through its envelope and decoding what was sent:
    accepted exactly when valid, equal event by event, and sharing no storage with
    the message that was sent.
  */
  method SendAndReceive(b: HeapServer) returns (r: Result<HeapServer>)
    ensures r.Success? <==> ServerVerdict(old(ServerView(b))).Pass?
    ensures r.Success? ==>
      ServerView(r.value) == old(ServerView(b)) && OwnsBuffers(KeysOf(EventsOf(BatchOf(r.value))))
    ensures ServerView(b) == old(ServerView(b))
  {
    hide PbServerView, ServerVerdict, ProtoServerMessage, FromProtoServerMessage, Disjoint, BuffersOf, EventsView;
    hide KeysOf, Contents;
    ghost var sent := ServerView(b);
    var p := WrapServerMessage(b);
    r := UnwrapServerMessage(Some(p));
    ServerRoundTrip(sent);
  }
}
