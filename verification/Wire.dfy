/** The shared contract types of internal/wire/types.go, record.go, status.go and protocol.go. */
module Wire {
  import opened Words
  import opened Outcomes
  import opened Routing

  const MAX_KEY_LEN: nat := 4 * 1024
  const MAX_VALUE_LEN: nat := 0x10_0000
  const MAX_WRITE_TIMEOUT_MILLIS: nat := 0xFFFF_FFFF

  // ---------- Versions ----------

  datatype VersionTag = VersionTag(partitionId: U32, sequence: U64) {
    predicate IsZero() { this == VersionTag(0, 0) }

    /** Tags of different partitions never supersede each other. */
    predicate IsNewer(other: VersionTag) {
      partitionId == other.partitionId && sequence > other.sequence
    }

    function ValidateCommitted(): Outcome {
      if sequence == 0 then Fail(MissingVersion) else Pass
    }
  }

  // ---------- Closed enumerations, as their Go integer types ----------

  const RECORD_VALUE: U8 := 0
  const RECORD_TOMBSTONE: U8 := 1
  const WRITE_FAST: U8 := 0
  const WRITE_SYNC: U8 := 1
  const STORAGE_MEMORY: U8 := 0
  const STORAGE_DURABLE: U8 := 1
  const CONFIRM_INVALIDATE_APPLIED: U8 := 0

  predicate ValidRecordKind(k: U8) { k == RECORD_VALUE || k == RECORD_TOMBSTONE }
  predicate ValidWriteMode(m: U8) { m == WRITE_FAST || m == WRITE_SYNC }
  predicate ValidStorageProfile(p: U8) { p == STORAGE_MEMORY || p == STORAGE_DURABLE }
  predicate ValidConfirmLevel(c: U8) { c == CONFIRM_INVALIDATE_APPLIED }

  const STATUS_OK: U16 := 0
  const STATUS_NOT_FOUND: U16 := 1
  const STATUS_NOT_CAUGHT_UP: U16 := 2
  const STATUS_ERR_DURABILITY_UNAVAILABLE: U16 := 3
  const STATUS_ERR_BAD_GENERATION: U16 := 4
  const STATUS_ERR_RATE_LIMITED: U16 := 5
  const STATUS_ERR_INVALID_ARGUMENT: U16 := 6
  const STATUS_ERR_WRITE_CONFIRM_TIMEOUT: U16 := 7
  const STATUS_ERR_INTERNAL: U16 := 8

  predicate ValidStatus(s: U16) { s <= STATUS_ERR_INTERNAL }

  // ---------- Durations ----------

  /** time.Duration counts nanoseconds in an int64. */
  const MILLISECOND: I64 := 1_000_000

  /** Go's / and % truncate toward zero. */
  function Quotient(a: I64, b: nat): int
    requires 0 < b
  {
    if a >= 0 then a / b else -(-(a as int) / b)
  }

  function Remainder(a: I64, b: nat): int
    requires 0 < b
  {
    if a >= 0 then a % b else -(-(a as int) % b)
  }

  /** int64 multiplication, with its two's-complement wrap. */
  function MulI64(a: I64, b: I64): I64 {
    var r := a * b % 0x1_0000_0000_0000_0000;
    if r < 0x8000_0000_0000_0000 then r else r - 0x1_0000_0000_0000_0000
  }

  /** A duration of exactly k milliseconds. */
  predicate IsMillis(d: I64, k: nat) { d == k * 1_000_000 }

  function TtlMillis(ttl: I64): Result<U64> {
    if ttl < 0 then Failure(NegativeTtl)
    else if Remainder(ttl, MILLISECOND) != 0 then Failure(TtlNotWholeMillis)
    else Success(Quotient(ttl, MILLISECOND))
  }

  /** TTLMillis answers exactly on non-negative whole milliseconds, without loss. */
  lemma TtlMillisExact(ttl: I64, k: U64)
    ensures TtlMillis(ttl) == Success(k) <==> IsMillis(ttl, k)
    ensures TtlMillis(ttl).Failure? <==> ttl < 0 || ttl % 1_000_000 != 0
    ensures TtlMillis(ttl) == Failure(NegativeTtl) <==> ttl < 0
    ensures TtlMillis(ttl) == Failure(TtlNotWholeMillis) <==> ttl > 0 && ttl % 1_000_000 != 0
  {
  }

  // ---------- Write options ----------

  datatype WriteOptions = WriteOptions(w: U16, mode: U8, confirmLevel: U8, timeout: I64) {
    function Validate(): Outcome {
      if !ValidWriteMode(mode) then Fail(InvalidWriteMode)
      else if !ValidConfirmLevel(confirmLevel) then Fail(InvalidConfirmLevel)
      else if timeout < 0 then Fail(InvalidWriteTimeout)
      else if Remainder(timeout, MILLISECOND) != 0 then Fail(TimeoutNotWholeMillis)
      else if Quotient(timeout, MILLISECOND) > MAX_WRITE_TIMEOUT_MILLIS then Fail(WriteTimeoutTooLarge)
      else Pass
    }

    /** A timeout passes exactly when the uint32 millisecond field can carry it; an error names a fault there is. */
    lemma ValidateExact()
      ensures Validate().Pass? <==>
        mode in {WRITE_FAST, WRITE_SYNC} && confirmLevel == CONFIRM_INVALIDATE_APPLIED
        && exists k: U32 :: IsMillis(timeout, k)
      ensures Validate() == Fail(InvalidWriteMode) <==> mode > WRITE_SYNC
      ensures Validate() == Fail(InvalidConfirmLevel) ==> confirmLevel != CONFIRM_INVALIDATE_APPLIED
      ensures Validate() == Fail(InvalidWriteTimeout) ==> timeout < 0
      ensures Validate() == Fail(TimeoutNotWholeMillis) ==> timeout > 0 && forall k: nat :: !IsMillis(timeout, k)
      ensures Validate() == Fail(WriteTimeoutTooLarge) ==> exists k: nat :: IsMillis(timeout, k) && k > 0xFFFF_FFFF
    {
      if Validate().Pass? {
        var k: U32 := timeout / 1_000_000;
        assert IsMillis(timeout, k);
      }
      if Validate() == Fail(WriteTimeoutTooLarge) {
        assert IsMillis(timeout, timeout / 1_000_000);
      }
    }
  }

  // ---------- Mutation identities ----------

  type MutationId = id: Bytes | |id| == 16 witness [0, 0, 0, 0, 0, 0, 0, 0, 0, 0, 0, 0, 0, 0, 0, 0]

  const ZERO_ID: MutationId := [0, 0, 0, 0, 0, 0, 0, 0, 0, 0, 0, 0, 0, 0, 0, 0]

  /** The big-endian number a byte sequence spells. */
  function BigEndian(b: Bytes): (n: nat)
    ensures n < Pow2(8 * |b|)
  {
    if |b| == 0 then 0
    else
      var last := |b| - 1;
      assert Pow2(8) == 256;
      Pow2Product(8, 8 * last);
      BigEndian(b[..last]) * 256 + b[last]
  }

  /** The width low bytes of n, most significant first. */
  function BigEndianBytes(n: nat, width: nat): (b: Bytes)
    ensures |b| == width
    decreases width
  {
    if width == 0 then [] else BigEndianBytes(n / 256, width - 1) + [n % 256]
  }

  lemma {:induction false} BytesOfBigEndian(b: Bytes)
    ensures BigEndianBytes(BigEndian(b), |b|) == b
  {
    if |b| > 0 {
      var last := |b| - 1;
      BytesOfBigEndian(b[..last]);
      assert b == b[..last] + [b[last]];
    }
  }

  lemma {:induction false} BigEndianOfBytes(n: nat, width: nat)
    requires n < Pow2(8 * width)
    ensures BigEndian(BigEndianBytes(n, width)) == n
    decreases width
  {
    if width > 0 {
      assert Pow2(8) == 256;
      Pow2Product(8, 8 * width - 8);
      BigEndianOfBytes(n / 256, width - 1);
      assert BigEndianBytes(n, width)[..width - 1] == BigEndianBytes(n / 256, width - 1);
    }
  }

  lemma {:induction false} BigEndianByteAt(n: nat, width: nat, i: nat)
    requires i < width
    ensures BigEndianBytes(n, width)[i] == Shr(n, 8 * (width - 1 - i)) % 256
    decreases width
  {
    if i < width - 1 {
      BigEndianByteAt(n / 256, width - 1, i);
      assert Pow2(8) == 256;
      ShrIs(n, 8, n / 256, n % 256);
      ShrTwice(n, 8, 8 * (width - 2 - i));
    }
  }

  function NodeEpoch(id: MutationId): U64 {
    Pow2At64();
    BigEndian(id[..8])
  }

  function Counter(id: MutationId): U64 {
    Pow2At64();
    BigEndian(id[8..])
  }

  /** The identity of an (epoch, counter) pair. */
  function MintedId(epoch: U64, counter: U64): MutationId {
    BigEndianBytes(epoch, 8) + BigEndianBytes(counter, 8)
  }

  /** binary.BigEndian.PutUint64 into eight bytes of a buffer. */
  method PutUint64(b: array<Byte>, at: nat, v: U64)
    requires at + 8 <= b.Length
    modifies b
    ensures b[at..at + 8] == BigEndianBytes(v, 8)
    ensures b[..at] == old(b[..at]) && b[at + 8..] == old(b[at + 8..])
  {
    for i := 0 to 8
      invariant b[..at] == old(b[..at]) && b[at + 8..] == old(b[at + 8..])
      invariant forall j | 0 <= j < i :: b[at + j] == BigEndianBytes(v, 8)[j]
    {
      BigEndianByteAt(v, 8, i);
      b[at + i] := Shr(v, 8 * (7 - i)) % 256;
    }
  }

  method NewMutationId(epoch: U64, counter: U64) returns (id: MutationId)
    ensures id == MintedId(epoch, counter)
  {
    var buffer := new Byte[16];
    PutUint64(buffer, 0, epoch);
    PutUint64(buffer, 8, counter);
    id := buffer[..];
    assert id == buffer[..8] + buffer[8..16];
  }

  /** Minting is a bijection between (epoch, counter) pairs and 16-byte identities. */
  lemma MintingBijective(epoch: U64, counter: U64, id: MutationId)
    ensures id == MintedId(epoch, counter) <==> NodeEpoch(id) == epoch && Counter(id) == counter
  {
    Pow2At64();
    BigEndianOfBytes(epoch, 8);
    BigEndianOfBytes(counter, 8);
    var minted := MintedId(epoch, counter);
    assert minted[..8] == BigEndianBytes(epoch, 8) && minted[8..] == BigEndianBytes(counter, 8);
    BytesOfBigEndian(id[..8]);
    BytesOfBigEndian(id[8..]);
    assert id == id[..8] + id[8..];
  }

  /** The byte order of bytes.Compare on sequences of one length. */
  ghost predicate BytesLess(a: Bytes, b: Bytes)
    requires |a| == |b|
  {
    exists k :: FirstDifference(a, b, k) && a[k] < b[k]
  }

  predicate FirstDifference(a: Bytes, b: Bytes, k: int)
    requires |a| == |b|
  {
    0 <= k < |a| && a[..k] == b[..k] && a[k] != b[k]
  }

  /** Comparing byte sequences compares their prefixes first and the rest on a tie. */
  lemma BytesLessSplits(a: Bytes, b: Bytes, m: nat)
    requires |a| == |b| && m <= |a|
    ensures BytesLess(a, b) <==>
      BytesLess(a[..m], b[..m]) || (a[..m] == b[..m] && BytesLess(a[m..], b[m..]))
  {
    if BytesLess(a, b) {
      var k :| FirstDifference(a, b, k) && a[k] < b[k];
      if k < m {
        assert a[..m][..k] == a[..k] && b[..m][..k] == b[..k];
        assert FirstDifference(a[..m], b[..m], k);
      } else {
        assert a[..m] == a[..k][..m] && b[..m] == b[..k][..m];
        assert a[m..][..k - m] == a[..k][m..] && b[m..][..k - m] == b[..k][m..];
        assert FirstDifference(a[m..], b[m..], k - m);
      }
    }
    if BytesLess(a[..m], b[..m]) {
      var k :| FirstDifference(a[..m], b[..m], k) && a[..m][k] < b[..m][k];
      assert a[..m][..k] == a[..k] && b[..m][..k] == b[..k];
      assert FirstDifference(a, b, k);
    }
    if a[..m] == b[..m] && BytesLess(a[m..], b[m..]) {
      var k :| FirstDifference(a[m..], b[m..], k) && a[m..][k] < b[m..][k];
      assert a[..m + k] == a[..m] + a[m..][..k] && b[..m + k] == b[..m] + b[m..][..k];
      assert FirstDifference(a, b, m + k);
    }
  }

  lemma BigEndianSnoc(b: Bytes)
    requires 0 < |b|
    ensures BigEndian(b) == BigEndian(b[..|b| - 1]) * 256 + b[|b| - 1]
  {
  }

  lemma {:induction false} BytesLessIsNumeric(a: Bytes, b: Bytes)
    requires |a| == |b|
    ensures BytesLess(a, b) <==> BigEndian(a) < BigEndian(b)
  {
    hide BytesLess, BigEndian, BigEndianBytes;
    if a == [] {
      NothingLess();
    } else {
      var last := |a| - 1;
      BigEndianSnoc(a);
      BigEndianSnoc(b);
      BytesLessSplits(a, b, last);
      BytesLessIsNumeric(a[..last], b[..last]);
      BytesOfBigEndian(a[..last]);
      BytesOfBigEndian(b[..last]);
      assert a[last..] == [a[last]] && b[last..] == [b[last]];
      OneByteLess(a[last], b[last]);
      LastDigit(BigEndian(a[..last]), BigEndian(b[..last]), a[last], b[last]);
    }
  }

  lemma NothingLess()
    ensures !BytesLess([], [])
  {
  }

  lemma LastDigit(x: nat, y: nat, c: Byte, d: Byte)
    ensures x * 256 + c < y * 256 + d <==> x < y || (x == y && c < d)
  {
  }

  lemma OneByteLess(x: Byte, y: Byte)
    ensures BytesLess([x], [y]) <==> x < y
  {
    if x < y {
      assert FirstDifference([x], [y], 0);
    }
  }

  /** Byte order on identities is lexicographic order on (epoch, counter). */
  lemma IdOrder(a: MutationId, b: MutationId)
    ensures BytesLess(a, b) <==>
      NodeEpoch(a) < NodeEpoch(b) || (NodeEpoch(a) == NodeEpoch(b) && Counter(a) < Counter(b))
  {
    BytesLessSplits(a, b, 8);
    BytesLessIsNumeric(a[..8], b[..8]);
    BytesLessIsNumeric(a[8..], b[8..]);
    BytesOfBigEndian(a[..8]);
    BytesOfBigEndian(b[..8]);
  }

  // ---------- Requests ----------

  function ValidateKey(key: Bytes): Outcome {
    if |key| == 0 then Fail(KeyEmpty)
    else if |key| > MAX_KEY_LEN then Fail(KeyTooLarge)
    else Pass
  }

  datatype WireGetRequest = WireGetRequest(key: Bytes, minVersion: Option<VersionTag>) {
    function Validate(partitionCount: U32): Outcome {
      if ValidateKey(key).Fail? then ValidateKey(key)
      else if partitionCount == 0 then Fail(InvalidPartitionCount)
      else if minVersion.Some? && minVersion.value.partitionId != PartitionOf(key, partitionCount) then
        Fail(MinVersionElsewhere)
      else Pass
    }
  }

  datatype SetRequest = SetRequest(key: Bytes, value: Bytes, ttlMillis: U64, mutationId: MutationId,
                                   options: WriteOptions) {
    function Validate(): Outcome {
      if ValidateKey(key).Fail? then ValidateKey(key)
      else if |value| > MAX_VALUE_LEN then Fail(ValueTooLarge)
      else if mutationId == ZERO_ID then Fail(MutationIdRequired)
      else options.Validate()
    }
  }

  datatype DeleteRequest = DeleteRequest(key: Bytes, mutationId: MutationId, options: WriteOptions) {
    function Validate(): Outcome {
      if ValidateKey(key).Fail? then ValidateKey(key)
      else if mutationId == ZERO_ID then Fail(MutationIdRequired)
      else options.Validate()
    }
  }

  // ---------- Authoritative records ----------

  datatype GetRecordFields = GetRecordFields(status: U16, version: VersionTag, kind: U8, value: Bytes) {
    function Validate(): Outcome {
      if !ValidStatus(status) || status == STATUS_ERR_WRITE_CONFIRM_TIMEOUT then Fail(InvalidGetStatus)
      else if status == STATUS_OK then
        if version.ValidateCommitted().Fail? then version.ValidateCommitted()
        else if !ValidRecordKind(kind) then Fail(InvalidRecordKind)
        else if kind == RECORD_TOMBSTONE && |value| != 0 then Fail(UnexpectedValue)
        else if |value| > MAX_VALUE_LEN then Fail(ValueTooLarge)
        else Pass
      else if !version.IsZero() then Fail(UnexpectedVersion)
      else if |value| != 0 then Fail(UnexpectedValue)
      else if kind != 0 then Fail(InvalidRecordKind)
      else Pass
    }
  }

  // ---------- Protocol versions ----------

  const CURRENT_PROTOCOL_VERSION: U16 := 1
  const MIN_SUPPORTED_PROTOCOL_VERSION: U16 := 1

  datatype ProtocolRange = ProtocolRange(version: U16, minSupported: U16) {
    function Validate(): Outcome {
      if minSupported == 0 || version == 0 || minSupported > version then Fail(InvalidProtocolRange) else Pass
    }

    /** A range is valid exactly when it is ordered and starts above zero. */
    lemma ValidateExact()
      ensures Validate() == if 0 < minSupported <= version then Pass else Fail(InvalidProtocolRange)
    {
    }

    predicate Speaks(v: U16) { minSupported <= v <= version }

    function Negotiate(peer: ProtocolRange): Result<U16> {
      if Validate().Fail? then Failure(Validate().error)
      else if peer.Validate().Fail? then Failure(peer.Validate().error)
      else
        var highest := if version <= peer.version then version else peer.version;
        var minimum := if minSupported >= peer.minSupported then minSupported else peer.minSupported;
        if highest < minimum then Failure(IncompatibleProtocolRanges) else Success(highest)
    }

    predicate Common(peer: ProtocolRange, v: U16) {
      Speaks(v) && peer.Speaks(v)
    }

    /**
      Negotiation refuses an invalid range on either side; else it finds the highest
      version both sides speak, and fails exactly when there is none. It is symmetric.
    */
    lemma NegotiateIsHighestCommon(peer: ProtocolRange)
      ensures Negotiate(peer) == Failure(InvalidProtocolRange) <==> Validate().Fail? || peer.Validate().Fail?
      ensures forall v: U16 ::
        Negotiate(peer) == Success(v) <==>
        Validate().Pass? && peer.Validate().Pass? && Common(peer, v) && forall u: U16 | Common(peer, u) :: u <= v
      ensures Negotiate(peer) == Failure(IncompatibleProtocolRanges) <==>
        Validate().Pass? && peer.Validate().Pass? && forall v: U16 :: !Common(peer, v)
      ensures Negotiate(peer) == peer.Negotiate(this)
    {
      if Validate().Pass? && peer.Validate().Pass? {
        assert Negotiate(peer).Success? ==> Common(peer, Negotiate(peer).value);
      }
    }
  }
}
