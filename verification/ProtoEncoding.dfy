/**
  The protobuf wire format, as byte sequences: the sections "Base 128 Varints",
  "Length-Delimited Records" and "Packed Repeated Fields" of the Protocol
  Buffers Encoding guide, for proto3 fields. A scalar field holding its default
  value is omitted; a submessage is present exactly when its pointer is set.
*/
module ProtoEncoding {
  import opened Words
  import opened Outcomes
  import opened Text

  // ---------- Varints ----------

  function Varint(n: nat): (b: Bytes)
    ensures 1 <= |b|
  {
    if n < 128 then [n] else [128 + n % 128] + Varint(n / 128)
  }

  /** Seven bits a byte: a k-byte varint holds the numbers below 2^(7k). */
  lemma {:induction false} VarintWidth(n: nat, k: nat)
    requires 0 < k && n < Pow2(7 * k)
    ensures |Varint(n)| <= k
    decreases k
  {
    if n >= 128 {
      assert Pow2(7) == 128;
      Pow2Product(7, 7 * k - 7);
      VarintWidth(n / 128, k - 1);
    }
  }

  lemma VarintWidths(n: nat)
    ensures n < 0x80 ==> |Varint(n)| == 1
    ensures n < 0x4000 ==> |Varint(n)| <= 2
    ensures n < 0x20_0000 ==> |Varint(n)| <= 3
    ensures n < 0x1000_0000 ==> |Varint(n)| <= 4
    ensures n < 0x8_0000_0000 ==> |Varint(n)| <= 5
    ensures n < 0x1_0000_0000_0000_0000 ==> |Varint(n)| <= 10
  {
    assert Pow2(7) == 128;
    Pow2Product(7, 7);
    Pow2Product(14, 7);
    Pow2Product(14, 14);
    Pow2Product(28, 7);
    Pow2At64();
    Pow2Product(64, 6);
    if n < 0x4000 { VarintWidth(n, 2); }
    if n < 0x20_0000 { VarintWidth(n, 3); }
    if n < 0x1000_0000 { VarintWidth(n, 4); }
    if n < 0x8_0000_0000 { VarintWidth(n, 5); }
    if n < 0x1_0000_0000_0000_0000 { VarintWidth(n, 10); }
  }

  /** A number of more than 7k bits takes more than k bytes. */
  lemma {:induction false} VarintAtLeast(n: nat, k: nat)
    requires Pow2(7 * k) <= n
    ensures k < |Varint(n)|
    decreases k
  {
    if k > 0 {
      assert Pow2(7) == 128;
      Pow2Product(7, 7 * k - 7);
      VarintAtLeast(n / 128, k - 1);
    }
  }

  /** What two, four and nine varint bytes hold. */
  lemma PowersOf128()
    ensures Pow2(14) == 0x4000 && Pow2(28) == 0x1000_0000 && Pow2(63) == 0x8000_0000_0000_0000
  {
    hide Pow2;
    Pow2At7();
    Pow2Product(7, 7);
    Pow2Product(14, 14);
    Pow2Product(28, 28);
    Pow2Product(56, 7);
  }

  lemma Pow2At7()
    ensures Pow2(7) == 0x80
  {
  }

  lemma LongVarint(n: nat)
    requires 0x20_0000 <= n
    ensures 4 <= |Varint(n)|
  {
    assert Pow2(7) == 128;
    Pow2Product(7, 7);
    Pow2Product(14, 7);
    VarintAtLeast(n, 3);
  }

  /** Varints are self-delimiting: from the bytes, the number and the rest are determined. */
  lemma {:induction false} VarintDecodable(m: nat, n: nat, after: Bytes, after': Bytes)
    requires Varint(m) + after == Varint(n) + after'
    ensures m == n && after == after'
    decreases m
  {
    hide Varint;
    VarintFront(m, after);
    VarintFront(n, after');
    var s := if m < 128 then after else Varint(m / 128) + after;
    var t := if n < 128 then after' else Varint(n / 128) + after';
    FirstByte(Varint(m)[0], s, Varint(n)[0], t);
    if m >= 128 {
      VarintDecodable(m / 128, n / 128, after, after');
      SameDigits(m, n);
    }
  }

  /** The first byte says whether another follows, and carries seven bits. */
  lemma VarintFront(n: nat, after: Bytes)
    ensures n < 128 ==> Varint(n)[0] == n && Varint(n) + after == [n] + after
    ensures n >= 128 ==>
      Varint(n)[0] == 128 + n % 128 && Varint(n) + after == [128 + n % 128] + (Varint(n / 128) + after)
  {
  }

  lemma FirstByte(c: Byte, s: Bytes, d: Byte, t: Bytes)
    ensures [c] + s == [d] + t ==> c == d && s == t
  {
    if [c] + s == [d] + t {
      assert ([c] + s)[0] == ([d] + t)[0] && ([c] + s)[1..] == s && ([d] + t)[1..] == t;
    }
  }

  lemma SameDigits(m: nat, n: nat)
    requires m / 128 == n / 128 && m % 128 == n % 128
    ensures m == n
  {
  }

  // ---------- Fields ----------

  const VARINT: nat := 0
  const LEN: nat := 2

  function Tag(field: nat, wireType: nat): (b: Bytes)
    ensures field < 16 && wireType < 8 ==> |b| == 1
  {
    Varint(field * 8 + wireType)
  }

  function UintField(field: nat, v: nat): Bytes {
    if v == 0 then [] else Tag(field, VARINT) + Varint(v)
  }

  /** An enum is an int32, sign-extended to 64 bits. */
  function EnumField(field: nat, v: I32): Bytes {
    UintField(field, Wrap64(v))
  }

  function LenField(field: nat, payload: Bytes): Bytes {
    Tag(field, LEN) + Varint(|payload|) + payload
  }

  /** A submessage under its tag; a nil one inside a oneof or a list is an empty record. */
  function MessageField<T>(field: nat, m: Option<T>, encode: T -> Bytes): Bytes {
    LenField(field, if m.None? then [] else encode(m.value))
  }

  /** A singular submessage: no record at all for a nil pointer. */
  function OptionalField<T>(field: nat, m: Option<T>, encode: T -> Bytes): Bytes {
    if m.None? then [] else MessageField(field, m, encode)
  }

  /** A repeated submessage: one record per element, in order. */
  function RepeatedField<T>(field: nat, ms: seq<Option<T>>, encode: T -> Bytes): Bytes
    decreases |ms|
  {
    if |ms| == 0 then []
    else
      var last := |ms| - 1;
      RepeatedField(field, ms[..last], encode) + MessageField(field, ms[last], encode)
  }

  function BytesField(field: nat, b: Bytes): Bytes {
    if |b| == 0 then [] else LenField(field, b)
  }

  function StringField(field: nat, s: string): Bytes {
    BytesField(field, Utf8(s))
  }

  function Varints(vs: seq<U32>): Bytes {
    if |vs| == 0 then [] else Varint(vs[0]) + Varints(vs[1..])
  }

  /** A repeated scalar: one record with the packed values, or nothing when empty. */
  function PackedField(field: nat, vs: seq<U32>): Bytes {
    BytesField(field, Varints(vs))
  }

  lemma FieldSize(field: nat, v: nat)
    requires field < 16 && v != 0
    ensures |UintField(field, v)| == 1 + |Varint(v)|
  {
  }

  /** Sign extension: a negative enum value takes ten varint bytes. */
  lemma NegativeEnumSize(field: nat, v: I32)
    requires field < 16 && v < 0
    ensures |EnumField(field, v)| == 11
  {
    hide Varint, Pow2;
    PowersOf128();
    VarintAtLeast(Wrap64(v), 9);
    VarintWidths(Wrap64(v));
    FieldSize(field, Wrap64(v));
  }

  /** A 16-bit value under a low tag takes at most three varint bytes. */
  lemma Uint16FieldSize(field: nat, v: U16)
    requires field < 16
    ensures |UintField(field, v)| <= 4
  {
    VarintWidths(v);
  }

  lemma Uint32FieldSize(field: nat, v: U32)
    requires field < 16
    ensures |UintField(field, v)| <= 6
  {
    VarintWidths(v);
  }

  lemma Uint64FieldSize(field: nat, v: U64)
    requires field < 16
    ensures |UintField(field, v)| <= 11
  {
    VarintWidths(v);
  }

  lemma {:induction false} VarintsSize(vs: seq<U32>)
    ensures |Varints(vs)| <= 5 * |vs|
  {
    if |vs| > 0 {
      VarintWidths(vs[0]);
      VarintsSize(vs[1..]);
    }
  }
}
