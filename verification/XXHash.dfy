/**
  Seeded XXH64. The specification reads the key by byte position, following
  steps 1 to 6 of the section "XXH64 Algorithm Description" of the xxHash fast
  digest algorithm specification; the method is the shrinking-slice loop of
  internal/wire/partition.go, proved to compute it.
*/
module XXHash {
  import opened Words

  const PRIME1: U64 := 11400714785074694791
  const PRIME2: U64 := 14029467366897019727
  const PRIME3: U64 := 1609587929392839161
  const PRIME4: U64 := 9650029242287828579
  const PRIME5: U64 := 2870177450012600261

  // ---------- Mixing steps ----------

  function Round(accumulator: U64, input: U64): U64 {
    Mul64(RotateLeft(Add64(accumulator, Mul64(input, PRIME2)), 31), PRIME1)
  }

  function MergeRound(accumulator: U64, value: U64): U64 {
    Add64(Mul64(Xor64(accumulator, Round(0, value)), PRIME1), PRIME4)
  }

  function AbsorbLane(hash: U64, lane: U64): U64 {
    Add64(Mul64(RotateLeft(Xor64(hash, Round(0, lane)), 27), PRIME1), PRIME4)
  }

  function AbsorbWord(hash: U64, word: U64): U64 {
    Add64(Mul64(RotateLeft(Xor64(hash, Mul64(word, PRIME1)), 23), PRIME2), PRIME3)
  }

  function AbsorbByte(hash: U64, b: U64): U64 {
    Mul64(RotateLeft(Xor64(hash, Mul64(b, PRIME5)), 11), PRIME1)
  }

  function Avalanche(hash: U64): U64 {
    XorShift(Mul64(XorShift(Mul64(XorShift(hash, 33), PRIME2), 29), PRIME3), 32)
  }

  // ---------- Reading the key by position ----------

  /** The little-endian number held in key[offset..offset+width]. */
  function LittleEndian(key: Bytes, offset: nat, width: nat): (n: nat)
    requires offset + width <= |key|
    ensures width <= 8 ==> n < Pow2(8 * width)
    decreases width
  {
    if width == 0 then 0
    else
      assert Pow2(8) == 256;
      Pow2Product(8, 8 * width - 8);
      key[offset] as nat + 256 * LittleEndian(key, offset + 1, width - 1)
  }

  function Word(key: Bytes, offset: nat, width: nat): U64
    requires offset + width <= |key| && width <= 8
  {
    Pow2At64();
    Pow2Product(8 * width, 64 - 8 * width);
    LittleEndian(key, offset, width)
  }

  /** One read: width bytes at an offset. */
  datatype Read = Read(offset: nat, width: nat)

  /** How an n-byte key is cut: full stripes, then lanes, at most one word, and bytes. */
  datatype Layout = Layout(stripes: nat, lanes: nat, words: nat, bytes: nat)

  function LayoutOf(n: nat): (l: Layout)
    ensures n == 32 * l.stripes + 8 * l.lanes + 4 * l.words + l.bytes
    ensures l.lanes < 4 && l.words < 2 && l.bytes < 4
  {
    var rest := n % 32;
    Layout(n / 32, rest / 8, rest % 8 / 4, rest % 8 % 4)
  }

  function TailReads(n: nat): nat {
    var l := LayoutOf(n);
    l.lanes + l.words + l.bytes
  }

  /** The i-th read of the tail. */
  function TailRead(n: nat, i: nat): (r: Read)
    requires i < TailReads(n)
    ensures r.offset + r.width <= n && r.width in {1, 4, 8}
  {
    var l := LayoutOf(n);
    if i < l.lanes then Read(32 * l.stripes + 8 * i, 8)
    else if i < l.lanes + l.words then Read(32 * l.stripes + 8 * l.lanes, 4)
    else Read(32 * l.stripes + 8 * l.lanes + 4 * l.words + (i - l.lanes - l.words), 1)
  }

  function Absorb(hash: U64, width: nat, value: U64): U64 {
    if width == 8 then AbsorbLane(hash, value)
    else if width == 4 then AbsorbWord(hash, value)
    else AbsorbByte(hash, value)
  }

  // ---------- The specification ----------

  /** The four accumulators after s stripes; accumulator j sees only lane j of each. */
  function Accumulator(key: Bytes, start: U64, lane: nat, s: nat): U64
    requires lane < 4 && 32 * s <= |key|
    decreases s
  {
    if s == 0 then start
    else Round(Accumulator(key, start, lane, s - 1), Word(key, 32 * (s - 1) + 8 * lane, 8))
  }

  datatype Accumulators = Accumulators(v1: U64, v2: U64, v3: U64, v4: U64)

  function Stripes(key: Bytes, seed: U64, s: nat): Accumulators
    requires 32 * s <= |key|
  {
    Accumulators(
      Accumulator(key, Add64(Add64(seed, PRIME1), PRIME2), 0, s),
      Accumulator(key, Add64(seed, PRIME2), 1, s),
      Accumulator(key, seed, 2, s),
      Accumulator(key, Sub64(seed, PRIME1), 3, s))
  }

  function Converge(v: Accumulators): U64 {
    var sum := Add64(Add64(Add64(RotateLeft(v.v1, 1), RotateLeft(v.v2, 7)), RotateLeft(v.v3, 12)),
                     RotateLeft(v.v4, 18));
    MergeRound(MergeRound(MergeRound(MergeRound(sum, v.v1), v.v2), v.v3), v.v4)
  }

  /** The hash before the tail: converged stripes, or the short-key constant, plus the length. */
  function Head(key: Bytes, seed: U64): U64 {
    Add64(if |key| >= 32 then Converge(Stripes(key, seed, |key| / 32)) else Add64(seed, PRIME5), Wrap64(|key|))
  }

  /** The hash after the first i tail reads, started from h. */
  function Tail(key: Bytes, h: U64, i: nat): U64
    requires i <= TailReads(|key|)
    decreases i
  {
    if i == 0 then h
    else
      var r := TailRead(|key|, i - 1);
      Absorb(Tail(key, h, i - 1), r.width, Word(key, r.offset, r.width))
  }

  function XXH64(key: Bytes, seed: U64): U64 {
    Avalanche(Tail(key, Head(key, seed), TailReads(|key|)))
  }

  // ---------- The implementation ----------

  /** binary.LittleEndian.Uint64; the eight shifted bytes do not overlap, so | is +. */
  function Uint64(b: Bytes): U64
    requires |b| == 8
  {
    b[0] as nat + b[1] as nat * 0x100 + b[2] as nat * 0x1_0000 + b[3] as nat * 0x100_0000
    + b[4] as nat * 0x1_0000_0000 + b[5] as nat * 0x100_0000_0000
    + b[6] as nat * 0x1_0000_0000_0000 + b[7] as nat * 0x100_0000_0000_0000
  }

  /** binary.LittleEndian.Uint32. */
  function Uint32(b: Bytes): U32
    requires |b| == 4
  {
    b[0] as nat + b[1] as nat * 0x100 + b[2] as nat * 0x1_0000 + b[3] as nat * 0x100_0000
  }

  /** One unrolling of the positional reading. */
  lemma NextByte(key: Bytes, offset: nat, width: nat)
    requires 0 < width && offset + width <= |key|
    ensures LittleEndian(key, offset, width) == key[offset] as nat + 256 * LittleEndian(key, offset + 1, width - 1)
  {
  }

  lemma ByteIsWord(key: Bytes, offset: nat)
    requires offset < |key|
    ensures Word(key, offset, 1) == key[offset]
  {
    NextByte(key, offset, 1);
  }

  lemma Uint32IsWord(key: Bytes, offset: nat)
    requires offset + 4 <= |key|
    ensures Uint32(key[offset..][..4]) == Word(key, offset, 4)
  {
    NextByte(key, offset, 4);
    NextByte(key, offset + 1, 3);
    NextByte(key, offset + 2, 2);
    NextByte(key, offset + 3, 1);
  }

  lemma HighHalf(key: Bytes, p: nat)
    requires p + 8 <= |key|
    ensures LittleEndian(key, p + 4, 4) ==
      key[p + 4] as nat + key[p + 5] as nat * 0x100 + key[p + 6] as nat * 0x1_0000 + key[p + 7] as nat * 0x100_0000
  {
    NextByte(key, p + 4, 4);
    NextByte(key, p + 5, 3);
    NextByte(key, p + 6, 2);
    NextByte(key, p + 7, 1);
  }

  lemma Uint64IsWord(key: Bytes, offset: nat, from: nat)
    requires offset + from + 8 <= |key|
    ensures Uint64(key[offset..][from..from + 8]) == Word(key, offset + from, 8)
  {
    hide LittleEndian;
    var p := offset + from;
    HighHalf(key, p);
    NextByte(key, p, 8);
    NextByte(key, p + 1, 7);
    NextByte(key, p + 2, 6);
    NextByte(key, p + 3, 5);
    var b := key[offset..][from..from + 8];
    assert forall i | 0 <= i < 8 :: b[i] == key[p + i];
  }

  /** The stripe loop (step 2), shrinking the slice by 32 bytes a turn. */
  method ConsumeStripes(data: Bytes, seed: U64) returns (v: Accumulators, remaining: Bytes)
    ensures v == Stripes(data, seed, |data| / 32)
    ensures remaining == data[|data| / 32 * 32..]
  {
    hide Round, Uint64, Add64, Sub64, Word, Wrap64;
    var v1 := Add64(Add64(seed, PRIME1), PRIME2);
    var v2 := Add64(seed, PRIME2);
    var v3 := seed;
    var v4 := Sub64(seed, PRIME1);
    remaining := data;
    ghost var s := 0;
    while |remaining| >= 32
      invariant 32 * s <= |data| && remaining == data[32 * s..]
      invariant v1 == Accumulator(data, Add64(Add64(seed, PRIME1), PRIME2), 0, s)
      invariant v2 == Accumulator(data, Add64(seed, PRIME2), 1, s)
      invariant v3 == Accumulator(data, seed, 2, s)
      invariant v4 == Accumulator(data, Sub64(seed, PRIME1), 3, s)
    {
      Uint64IsWord(data, 32 * s, 0);
      Uint64IsWord(data, 32 * s, 8);
      Uint64IsWord(data, 32 * s, 16);
      Uint64IsWord(data, 32 * s, 24);
      v1 := Round(v1, Uint64(remaining[0..8]));
      v2 := Round(v2, Uint64(remaining[8..16]));
      v3 := Round(v3, Uint64(remaining[16..24]));
      v4 := Round(v4, Uint64(remaining[24..32]));
      remaining := remaining[32..];
      s := s + 1;
    }
    v := Accumulators(v1, v2, v3, v4);
  }

  /** After i tail reads of an n-byte key, this many bytes are left. */
  predicate AtTail(n: nat, i: nat, remaining: nat) {
    var l := LayoutOf(n);
    if i <= l.lanes then remaining == 8 * (l.lanes - i) + 4 * l.words + l.bytes
    else i <= TailReads(n) && remaining == TailReads(n) - i
  }

  /** The next read starts where the remaining bytes start. */
  lemma NextTailRead(n: nat, i: nat, remaining: nat)
    requires AtTail(n, i, remaining) && 0 < remaining
    ensures i < TailReads(n) && remaining <= n
    ensures TailRead(n, i) == Read(n - remaining, if remaining >= 8 then 8 else if remaining >= 4 then 4 else 1)
    ensures AtTail(n, i + 1, remaining - TailRead(n, i).width)
  {
    hide LayoutOf;
  }

  lemma TailStart(key: Bytes, h: U64)
    ensures AtTail(|key|, 0, |key| - 32 * LayoutOf(|key|).stripes)
    ensures Tail(key, h, 0) == h
  {
  }

  lemma TailDone(n: nat, i: nat)
    requires AtTail(n, i, 0)
    ensures i == TailReads(n)
  {
    hide LayoutOf;
  }

  lemma TailNext(key: Bytes, h: U64, i: nat)
    requires i < TailReads(|key|)
    ensures
      var r := TailRead(|key|, i);
      Tail(key, h, i + 1) ==
      if r.width == 8 then AbsorbLane(Tail(key, h, i), Word(key, r.offset, 8))
      else if r.width == 4 then AbsorbWord(Tail(key, h, i), Word(key, r.offset, 4))
      else AbsorbByte(Tail(key, h, i), Word(key, r.offset, 1))
  {
  }

  /** The 8-byte lanes of the tail. */
  method ConsumeLanes(data: Bytes, tail: Bytes, h: U64) returns (hash: U64, remaining: Bytes, ghost i: nat)
    requires tail == data[32 * LayoutOf(|data|).stripes..]
    ensures |remaining| < 8 && |remaining| <= |data| && remaining == data[|data| - |remaining|..]
    ensures i <= TailReads(|data|) && AtTail(|data|, i, |remaining|)
    ensures hash == Tail(data, h, i)
  {
    hide Uint64, Uint32, Word, Round, Xor64, Add64, Mul64, RotateLeft, LayoutOf, TailReads, TailRead, AtTail, Tail;
    TailStart(data, h);
    hash, remaining, i := h, tail, 0;
    while |remaining| >= 8
      invariant |remaining| <= |data| && remaining == data[|data| - |remaining|..]
      invariant i <= TailReads(|data|) && AtTail(|data|, i, |remaining|)
      invariant hash == Tail(data, h, i)
    {
      NextTailRead(|data|, i, |remaining|);
      Uint64IsWord(data, |data| - |remaining|, 0);
      TailNext(data, h, i);
      var k := Round(0, Uint64(remaining[..8]));
      hash := Xor64(hash, k);
      hash := Add64(Mul64(RotateLeft(hash, 27), PRIME1), PRIME4);
      remaining := remaining[8..];
      i := i + 1;
    }
  }

  /** The bytes left at the end of the tail. */
  method ConsumeBytes(data: Bytes, remaining: Bytes, h: U64, mixed: U64, ghost i: nat) returns (hash: U64)
    requires |remaining| < 4 && |remaining| <= |data| && remaining == data[|data| - |remaining|..]
    requires i <= TailReads(|data|) && AtTail(|data|, i, |remaining|)
    ensures mixed == Tail(data, h, i) ==> hash == Tail(data, h, TailReads(|data|))
  {
    hide Uint64, Uint32, Word, Round, Xor64, Add64, Mul64, RotateLeft, LayoutOf, TailReads, TailRead, AtTail, Tail;
    hash := mixed;
    for j := 0 to |remaining|
      invariant AtTail(|data|, i + j, |remaining| - j) && i + j <= TailReads(|data|)
      invariant mixed == Tail(data, h, i) ==> hash == Tail(data, h, i + j)
    {
      NextTailRead(|data|, i + j, |remaining| - j);
      ByteIsWord(data, |data| - |remaining| + j);
      TailNext(data, h, i + j);
      hash := Xor64(hash, Mul64(remaining[j], PRIME5));
      hash := Mul64(RotateLeft(hash, 11), PRIME1);
    }
    TailDone(|data|, i + |remaining|);
  }

  /** The 8-byte, 4-byte and 1-byte tails (step 5). */
  method ConsumeTail(data: Bytes, tail: Bytes, h: U64) returns (hash: U64)
    requires tail == data[32 * LayoutOf(|data|).stripes..]
    ensures hash == Tail(data, h, TailReads(|data|))
  {
    hide Uint64, Uint32, Word, Round, Xor64, Add64, Mul64, RotateLeft, LayoutOf, TailReads, TailRead, AtTail, Tail;
    var remaining;
    ghost var i;
    hash, remaining, i := ConsumeLanes(data, tail, h);
    if |remaining| >= 4 {
      NextTailRead(|data|, i, |remaining|);
      Uint32IsWord(data, |data| - |remaining|);
      TailNext(data, h, i);
      hash := Xor64(hash, Mul64(Uint32(remaining[..4]), PRIME1));
      hash := Add64(Mul64(RotateLeft(hash, 23), PRIME2), PRIME3);
      remaining := remaining[4..];
      i := i + 1;
    }
    hash := ConsumeBytes(data, remaining, h, hash, i);
  }

  method Hash(data: Bytes, seed: U64) returns (hash: U64)
    ensures hash == XXH64(data, seed)
  {
    hide MergeRound, RotateLeft, Add64, Mul64, XorShift, Stripes, Tail, TailReads, Wrap64;
    var remaining := data;
    if |remaining| >= 32 {
      var v;
      v, remaining := ConsumeStripes(data, seed);
      hash := Add64(Add64(Add64(RotateLeft(v.v1, 1), RotateLeft(v.v2, 7)), RotateLeft(v.v3, 12)), RotateLeft(v.v4, 18));
      hash := MergeRound(hash, v.v1);
      hash := MergeRound(hash, v.v2);
      hash := MergeRound(hash, v.v3);
      hash := MergeRound(hash, v.v4);
    } else {
      hash := Add64(seed, PRIME5);
    }
    hash := Add64(hash, Wrap64(|data|));
    hash := ConsumeTail(data, remaining, hash);
    hash := XorShift(hash, 33);
    hash := Mul64(hash, PRIME2);
    hash := XorShift(hash, 29);
    hash := Mul64(hash, PRIME3);
    hash := XorShift(hash, 32);
  }
}
