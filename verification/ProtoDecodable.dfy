/**
  Reading the protobuf wire format back. Records that come in the order of their
  field numbers are read off one at a time: each is recognised by its tag, and its
  varint or length says where the next one starts.
*/
module ProtoDecodable {
  import opened Words
  import opened Outcomes
  import opened ProtoEncoding

  // ---------- One record at a time ----------

  /** What comes next is a record of a field above f, or the end. */
  predicate Beyond(f: nat, rest: Bytes) {
    rest == [] || 8 * f + 8 <= rest[0]
  }

  lemma Prefixed(c: Byte, s: Bytes, rest: Bytes)
    ensures ([c] + s) + rest == [c] + (s + rest)
  {
  }

  lemma TagIsByte(f: nat, wireType: nat)
    requires f < 16 && wireType < 8
    ensures Tag(f, wireType) == [8 * f + wireType]
  {
  }

  lemma UintStarts(f: nat, v: nat, rest: Bytes)
    requires f < 16 && v != 0
    ensures UintField(f, v) + rest == [8 * f] + (Varint(v) + rest)
  {
    hide Varint, Tag;
    TagIsByte(f, VARINT);
    Prefixed(8 * f, Varint(v), rest);
  }

  lemma LenStarts(f: nat, payload: Bytes, rest: Bytes)
    requires f < 16
    ensures LenField(f, payload) + rest == [8 * f + 2] + (Varint(|payload|) + (payload + rest))
  {
    hide Varint, Tag;
    TagIsByte(f, LEN);
    Regroup([8 * f + 2], Varint(|payload|), payload, rest);
  }

  lemma Regroup(a: Bytes, b: Bytes, c: Bytes, rest: Bytes)
    ensures a + b + c + rest == a + (b + (c + rest))
  {
  }

  lemma BeyondUint(f: nat, g: nat, v: nat, rest: Bytes)
    requires f < g < 16 && Beyond(f, rest)
    ensures Beyond(f, UintField(g, v) + rest)
  {
    hide Varint, Tag;
    if v != 0 {
      UintStarts(g, v, rest);
    } else {
      assert UintField(g, v) + rest == rest;
    }
  }

  lemma BeyondLen(f: nat, g: nat, payload: Bytes, rest: Bytes)
    requires f < g < 16
    ensures Beyond(f, LenField(g, payload) + rest)
  {
    LenStarts(g, payload, rest);
  }

  lemma UintDecodable(f: nat, v: nat, v': nat, rest: Bytes, rest': Bytes)
    requires f < 16 && Beyond(f, rest) && Beyond(f, rest')
    requires UintField(f, v) + rest == UintField(f, v') + rest'
    ensures v == v' && rest == rest'
  {
    hide Varint, Tag;
    var s, s' := Varint(v) + rest, Varint(v') + rest';
    if v != 0 {
      UintStarts(f, v, rest);
    } else {
      assert UintField(f, v) + rest == rest;
    }
    if v' != 0 {
      UintStarts(f, v', rest');
    } else {
      assert UintField(f, v') + rest' == rest';
    }
    assert v != 0 <==> v' != 0;
    if v != 0 {
      FirstByte(8 * f, s, 8 * f, s');
      VarintDecodable(v, v', rest, rest');
    }
  }

  lemma LenDecodable(f: nat, p: Bytes, p': Bytes, rest: Bytes, rest': Bytes)
    requires f < 16 && LenField(f, p) + rest == LenField(f, p') + rest'
    ensures p == p' && rest == rest'
  {
    hide Varint, Tag, LenField;
    LenStarts(f, p, rest);
    LenStarts(f, p', rest');
    FirstByte(8 * f + 2, Varint(|p|) + (p + rest), 8 * f + 2, Varint(|p'|) + (p' + rest'));
    VarintDecodable(|p|, |p'|, p + rest, p' + rest');
    assert p == (p + rest)[..|p|] && p' == (p' + rest')[..|p|];
    assert rest == (p + rest)[|p|..] && rest' == (p' + rest')[|p|..];
  }

  lemma BytesDecodable(f: nat, p: Bytes, p': Bytes, rest: Bytes, rest': Bytes)
    requires f < 16 && Beyond(f, rest) && Beyond(f, rest')
    requires BytesField(f, p) + rest == BytesField(f, p') + rest'
    ensures p == p' && rest == rest'
  {
    hide Varint, Tag, LenField;
    LenStarts(f, p, rest);
    LenStarts(f, p', rest');
    assert [] + rest == rest && [] + rest' == rest';
    if p != [] && p' != [] {
      LenDecodable(f, p, p', rest, rest');
    }
  }

  lemma BeyondBytes(f: nat, g: nat, p: Bytes, rest: Bytes)
    requires f < g < 16 && Beyond(f, rest)
    ensures Beyond(f, BytesField(g, p) + rest)
  {
    hide LenField;
    BeyondLen(f, g, p, rest);
    assert [] + rest == rest;
  }

  lemma EnumDecodable(f: nat, v: I32, v': I32, rest: Bytes, rest': Bytes)
    requires f < 16 && Beyond(f, rest) && Beyond(f, rest')
    requires EnumField(f, v) + rest == EnumField(f, v') + rest'
    ensures v == v' && rest == rest'
  {
    hide UintField;
    UintDecodable(f, Wrap64(v), Wrap64(v'), rest, rest');
  }

  lemma BeyondEnum(f: nat, g: nat, v: I32, rest: Bytes)
    requires f < g < 16 && Beyond(f, rest)
    ensures Beyond(f, EnumField(g, v) + rest)
  {
    BeyondUint(f, g, Wrap64(v), rest);
  }

  /** A submessage, present exactly when its pointer is set, is read back as its own bytes. */
  lemma OptionalDecodable<T>(f: nat, m: Option<T>, m': Option<T>, encode: T -> Bytes, rest: Bytes, rest': Bytes)
    requires f < 16 && Beyond(f, rest) && Beyond(f, rest')
    requires OptionalField(f, m, encode) + rest == OptionalField(f, m', encode) + rest'
    ensures rest == rest' && (m.None? <==> m'.None?)
    ensures m.Some? ==> encode(m.value) == encode(m'.value)
  {
    hide LenField;
    assert [] + rest == rest && [] + rest' == rest';
    if m.Some? {
      LenStarts(f, encode(m.value), rest);
    }
    if m'.Some? {
      LenStarts(f, encode(m'.value), rest');
    }
    if m.Some? && m'.Some? {
      LenDecodable(f, encode(m.value), encode(m'.value), rest, rest');
    }
  }

  lemma BeyondOptional<T>(f: nat, g: nat, m: Option<T>, encode: T -> Bytes, rest: Bytes)
    requires f < g < 16 && Beyond(f, rest)
    ensures Beyond(f, OptionalField(g, m, encode) + rest)
  {
    hide LenField;
    if m.Some? {
      BeyondLen(f, g, encode(m.value), rest);
    } else {
      assert [] + rest == rest;
    }
  }

  // ---------- Runs of scalar fields ----------

  /** Scalar fields numbered from f upwards. */
  function Uints(f: nat, vs: seq<nat>): Bytes
    decreases |vs|
  {
    if |vs| == 0 then [] else UintField(f, vs[0]) + Uints(f + 1, vs[1..])
  }

  lemma {:induction false} BeyondUints(f: nat, g: nat, vs: seq<nat>, rest: Bytes)
    requires f < g && g + |vs| <= 16 && Beyond(f, rest)
    ensures Beyond(f, Uints(g, vs) + rest)
    decreases |vs|
  {
    hide UintField;
    if |vs| == 0 {
      assert [] + rest == rest;
    } else {
      BeyondUints(f, g + 1, vs[1..], rest);
      BeyondUint(f, g, vs[0], Uints(g + 1, vs[1..]) + rest);
      assert Uints(g, vs) + rest == UintField(g, vs[0]) + (Uints(g + 1, vs[1..]) + rest);
    }
  }

  lemma {:induction false} UintsDecodable(f: nat, vs: seq<nat>, vs': seq<nat>, rest: Bytes, rest': Bytes)
    requires |vs| == |vs'| && f + |vs| <= 16
    requires |vs| > 0 ==> Beyond(f + |vs| - 1, rest) && Beyond(f + |vs| - 1, rest')
    requires Uints(f, vs) + rest == Uints(f, vs') + rest'
    ensures vs == vs' && rest == rest'
    decreases |vs|
  {
    hide UintField;
    if |vs| == 0 {
      assert [] + rest == rest && [] + rest' == rest';
    } else {
      var s, s' := Uints(f + 1, vs[1..]), Uints(f + 1, vs'[1..]);
      assert Uints(f, vs) + rest == UintField(f, vs[0]) + (s + rest);
      assert Uints(f, vs') + rest' == UintField(f, vs'[0]) + (s' + rest');
      BeyondUints(f, f + 1, vs[1..], rest);
      BeyondUints(f, f + 1, vs'[1..], rest');
      UintDecodable(f, vs[0], vs'[0], s + rest, s' + rest');
      UintsDecodable(f + 1, vs[1..], vs'[1..], rest, rest');
      assert vs == [vs[0]] + vs[1..] && vs' == [vs'[0]] + vs'[1..];
    }
  }

  // ---------- Repeated fields ----------

  lemma {:induction false} VarintsDecodable(vs: seq<U32>, vs': seq<U32>)
    requires Varints(vs) == Varints(vs')
    ensures vs == vs'
    decreases |vs|
  {
    hide Varint;
    if vs != [] && vs' != [] {
      VarintDecodable(vs[0], vs'[0], Varints(vs[1..]), Varints(vs'[1..]));
      VarintsDecodable(vs[1..], vs'[1..]);
      assert vs == [vs[0]] + vs[1..] && vs' == [vs'[0]] + vs'[1..];
    }
  }

  /** The records of a repeated submessage, from the front. */
  lemma {:induction false} RepeatedFront<T>(f: nat, ms: seq<Option<T>>, encode: T -> Bytes)
    requires |ms| > 0
    ensures RepeatedField(f, ms, encode) == MessageField(f, ms[0], encode) + RepeatedField(f, ms[1..], encode)
    decreases |ms|
  {
    hide MessageField;
    var last := |ms| - 1;
    if last > 0 {
      RepeatedFront(f, ms[..last], encode);
      assert ms[..last][1..] == ms[1..][..last - 1];
    }
  }

  predicate AllSet<T>(ms: seq<Option<T>>) {
    forall i | 0 <= i < |ms| :: ms[i].Some?
  }

  lemma BeyondRepeated<T>(f: nat, g: nat, ms: seq<Option<T>>, encode: T -> Bytes, rest: Bytes)
    requires f < g < 16 && Beyond(f, rest) && AllSet(ms)
    ensures Beyond(f, RepeatedField(g, ms, encode) + rest)
  {
    hide LenField;
    if |ms| == 0 {
      assert [] + rest == rest;
    } else {
      RepeatedFront(g, ms, encode);
      var tail := RepeatedField(g, ms[1..], encode);
      BeyondLen(f, g, encode(ms[0].value), tail + rest);
      assert MessageField(g, ms[0], encode) + tail + rest == MessageField(g, ms[0], encode) + (tail + rest);
    }
  }

  /** A list of set submessages is read back element by element. */
  lemma {:induction false} RepeatedDecodable<T>(
    f: nat, ms: seq<Option<T>>, ms': seq<Option<T>>, encode: T -> Bytes, rest: Bytes, rest': Bytes)
    requires f < 16 && AllSet(ms) && AllSet(ms') && Beyond(f, rest) && Beyond(f, rest')
    requires RepeatedField(f, ms, encode) + rest == RepeatedField(f, ms', encode) + rest'
    ensures |ms| == |ms'| && rest == rest'
    ensures forall i | 0 <= i < |ms| :: encode(ms[i].value) == encode(ms'[i].value)
    decreases |ms|
  {
    hide LenField, RepeatedField;
    RepeatedStarts(f, ms, encode, rest);
    RepeatedStarts(f, ms', encode, rest');
    if |ms| > 0 && |ms'| > 0 {
      var tail, tail' := RepeatedField(f, ms[1..], encode), RepeatedField(f, ms'[1..], encode);
      LenDecodable(f, encode(ms[0].value), encode(ms'[0].value), tail + rest, tail' + rest');
      RepeatedDecodable(f, ms[1..], ms'[1..], encode, rest, rest');
      forall i | 0 <= i < |ms|
        ensures encode(ms[i].value) == encode(ms'[i].value)
      {
        if i > 0 {
          assert ms[i] == ms[1..][i - 1] && ms'[i] == ms'[1..][i - 1];
        }
      }
    }
  }

  lemma RepeatedStarts<T>(f: nat, ms: seq<Option<T>>, encode: T -> Bytes, rest: Bytes)
    requires f < 16 && AllSet(ms)
    ensures |ms| == 0 ==> RepeatedField(f, ms, encode) + rest == rest
    ensures var all := RepeatedField(f, ms, encode) + rest;
      if |ms| == 0 then all == rest
      else
        all == LenField(f, encode(ms[0].value)) + (RepeatedField(f, ms[1..], encode) + rest)
        && all != [] && all[0] == 8 * f + 2
  {
    hide LenField;
    if |ms| == 0 {
      assert [] + rest == rest;
    } else {
      RepeatedFront(f, ms, encode);
      var record, tail := LenField(f, encode(ms[0].value)), RepeatedField(f, ms[1..], encode);
      assert record + tail + rest == record + (tail + rest);
      LenStarts(f, encode(ms[0].value), tail + rest);
    }
  }
}
