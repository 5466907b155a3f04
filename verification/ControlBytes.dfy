/**
  The bytes of each control message with one-byte field values, record by record:
  the field numbers and wire types of api/proto/gossipcache/v1/control.proto.
*/
module ControlBytes {
  import opened Words
  import opened Outcomes
  import opened Text
  import opened Wire
  import opened Control
  import opened ControlProto
  import opened ProtoEncoding
  import opened ProtoDecodable
  import opened ControlSize

  /** Field values that take one byte. */
  type Small = x: nat | 0 < x < 128 witness 1

  lemma SmallUint(f: nat, v: Small)
    requires f < 16
    ensures UintField(f, v) == [8 * f, v]
  {
    TagIsByte(f, VARINT);
  }

  lemma SmallLen(f: nat, payload: Bytes)
    requires f < 16 && |payload| < 128
    ensures LenField(f, payload) == [8 * f + 2, |payload|] + payload
  {
    TagIsByte(f, LEN);
  }

  lemma TwoBytes(a: Small, b: Small)
    ensures UintField(1, a) + UintField(2, b) == [0x08, a, 0x10, b]
  {
    hide UintField;
    SmallUint(1, a);
    SmallUint(2, b);
  }

  lemma ThreeBytes(a: Small, b: Small, c: Small)
    ensures UintField(1, a) + UintField(2, b) + UintField(3, c) == [0x08, a, 0x10, b, 0x18, c]
  {
    hide UintField;
    TwoBytes(a, b);
    SmallUint(3, c);
  }

  lemma RepeatedOne<T>(f: nat, m: Option<T>, encode: T -> Bytes)
    ensures RepeatedField(f, [m], encode) == MessageField(f, m, encode)
  {
    hide MessageField;
    assert [m][..0] == [];
    assert RepeatedField(f, [m], encode) == RepeatedField(f, [m][..0], encode) + MessageField(f, m, encode);
  }

  /** An event with every field set, as the schema numbers them. */
  lemma EventBytes(q: Small, c: Byte, s: Small, v: Small, id: MutationId)
    ensures EncodeEvent(ProtoEvent(InvalidationEvent(q, [c], VersionTag(s, v), RECORD_TOMBSTONE, id)))
      == [0x08, q] + ([0x12, 1] + [c]) + ([0x1A, 4] + [0x08, s, 0x10, v]) + [0x20, 1] + ([0x2A, 18] + ([0x0A, 16] + id))
  {
    hide UintField, LenField;
    SmallUint(1, q);
    SmallLen(2, [c]);
    TwoBytes(s, v);
    assert EncodeVersionTag(PbVersionTag(s, v)) == [0x08, s, 0x10, v];
    SmallLen(3, [0x08, s, 0x10, v]);
    SmallUint(4, 1);
    SmallLen(1, id);
    assert EncodeMutationId(id) == [0x0A, 16] + id;
    SmallLen(5, [0x0A, 16] + id);
  }

  /** A batch of one event, in its envelope. */
  lemma BatchBytes(s: Small, g: Small, e: Event)
    requires |EncodeEvent(ProtoEvent(e))| < 64
    ensures var event := EncodeEvent(ProtoEvent(e));
      EncodeServerMessage(ProtoServerMessage(BatchBody(InvalidationBatch(s, g, [e]))))
      == [0x0A, 6 + |event|, 0x08, s, 0x10, g, 0x1A, |event|] + event
  {
    hide UintField, LenField, EncodeEvent, RepeatedField, ProtoEvent;
    var p, event := ProtoBatch(InvalidationBatch(s, g, [e])), EncodeEvent(ProtoEvent(e));
    assert p.events == [Some(ProtoEvent(e))];
    RepeatedOne(3, Some(ProtoEvent(e)), EncodeEvent);
    SmallLen(3, event);
    TwoBytes(s, g);
    assert EncodeBatch(p) == [0x08, s, 0x10, g] + ([0x1A, |event|] + event);
    SmallLen(1, EncodeBatch(p));
  }

  lemma CheckpointBytes(a: Small, b: Small, c: Small)
    ensures EncodeServerMessage(ProtoServerMessage(CheckpointBody(StreamCheckpoint(a, b, c))))
      == [0x12, 6, 0x08, a, 0x10, b, 0x18, c]
  {
    hide UintField, LenField;
    ThreeBytes(a, b, c);
    SmallLen(2, [0x08, a, 0x10, b, 0x18, c]);
  }

  lemma ReplayUnavailableBytes(a: Small, b: Small, c: Small, d: Small, e: Small)
    ensures EncodeServerMessage(ProtoServerMessage(ReplayUnavailableBody(ReplayUnavailable(a, b, c, d, e))))
      == [0x1A, 10, 0x08, a, 0x10, b, 0x18, c, 0x20, d, 0x28, e]
  {
    hide UintField, LenField;
    ThreeBytes(a, b, c);
    SmallUint(4, d);
    SmallUint(5, e);
    var body := EncodeReplayUnavailable(PbReplayUnavailable(a, b, c, d, e));
    assert body == [0x08, a, 0x10, b, 0x18, c] + [0x20, d] + [0x28, e];
    SmallLen(3, body);
  }

  lemma ControlErrorBytes(status: Small, detail: string)
    requires 0 < ByteLength(detail) < 64
    ensures var text := Utf8(detail);
      EncodeServerMessage(ProtoServerMessage(ControlErrorBody(ControlError(status, detail))))
      == [0x22, 4 + |text|, 0x08, status, 0x12, |text|] + text
  {
    hide UintField, LenField, Utf8;
    SmallUint(1, status);
    SmallLen(2, Utf8(detail));
    SmallLen(4, EncodeControlError(PbControlError(status, detail)));
  }

  /** A hello with one subscription, in its envelope. */
  lemma HelloBytes(n: Small, v: Small, m: Small, w: Small, t: Small, g: Small, id: string, h: Small)
    requires 0 < ByteLength(id) < 64
    ensures var text := Utf8(id);
      EncodeClientMessage(ProtoClientMessage(HelloBody(
        Hello(n, ProtocolRange(v, m), [StreamWatermark(w, t, g)], id, h))))
      == [0x0A, 18 + |text|]
         + ([0x08, n, 0x10, v, 0x18, m] + [0x22, 6, 0x08, w, 0x10, t, 0x18, g] + ([0x2A, |text|] + text) + [0x30, h])
  {
    hide UintField, LenField, RepeatedField, Utf8, EncodeWatermark;
    var p := HelloToProto(Hello(n, ProtocolRange(v, m), [StreamWatermark(w, t, g)], id, h));
    var s := PbStreamWatermark(w, t, g);
    WatermarkBytes(w, t, g);
    assert p.subscriptions == [Some(s)];
    RepeatedOne(4, Some(s), EncodeWatermark);
    ThreeBytes(n, v, m);
    SmallLen(5, Utf8(id));
    SmallUint(6, h);
    SmallLen(1, EncodeHello(p));
  }

  lemma WatermarkBytes(w: Small, t: Small, g: Small)
    ensures MessageField(4, Some(PbStreamWatermark(w, t, g)), EncodeWatermark)
      == [0x22, 6, 0x08, w, 0x10, t, 0x18, g]
  {
    hide UintField, LenField;
    ThreeBytes(w, t, g);
    SmallLen(4, [0x08, w, 0x10, t, 0x18, g]);
  }

  /** Subscribe packs its ids; 300 is the two-byte varint of the encoding guide. */
  lemma SubscribeBytes(g: Small, id: U32)
    requires 0 < id < 128
    ensures EncodeClientMessage(ProtoClientMessage(SubscribeBody(Subscribe(g, [id, 300]))))
      == [0x12, 7, 0x08, g, 0x12, 3, id, 0xAC, 0x02]
  {
    hide UintField, LenField, Varints;
    SmallUint(1, g);
    PackedBytes(id);
    SmallLen(2, [id, 0xAC, 0x02]);
    assert EncodeSubscribe(PbSubscribe(g, [id, 300])) == [0x08, g] + [0x12, 3, id, 0xAC, 0x02];
    SmallLen(2, [0x08, g] + [0x12, 3, id, 0xAC, 0x02]);
  }

  lemma PackedBytes(id: U32)
    requires 0 < id < 128
    ensures Varints([id, 300]) == [id, 0xAC, 0x02]
  {
    assert Varint(300) == [0xAC, 0x02];
    assert [id, 300][1..] == [300] && Varints([300]) == [0xAC, 0x02] + [];
  }

  lemma AcknowledgementBytes(a: Small, b: Small)
    ensures EncodeClientMessage(ProtoClientMessage(AcknowledgementBody(StreamAcknowledgement(a, b))))
      == [0x1A, 4, 0x08, a, 0x10, b]
  {
    hide UintField, LenField;
    TwoBytes(a, b);
    SmallLen(3, [0x08, a, 0x10, b]);
  }

  lemma ReplayRequestBytes(a: Small, b: Small, c: Small)
    ensures EncodeClientMessage(ProtoClientMessage(ReplayRequestBody(ReplayRequest(a, b, c))))
      == [0x22, 6, 0x08, a, 0x10, b, 0x18, c]
  {
    hide UintField, LenField;
    ThreeBytes(a, b, c);
    SmallLen(4, [0x08, a, 0x10, b, 0x18, c]);
  }

  lemma ConfirmBytes(a: Small, b: Small, c: Small)
    ensures EncodeClientMessage(ProtoClientMessage(ConfirmBody(InvalidateConfirm(a, b, c))))
      == [0x2A, 6, 0x08, a, 0x10, b, 0x18, c]
  {
    hide UintField, LenField;
    ThreeBytes(a, b, c);
    SmallLen(5, [0x08, a, 0x10, b, 0x18, c]);
  }
}
