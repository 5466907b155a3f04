/**
  What XXH64 never loses. Every mixing step is a bijection of the 64-bit words,
  so a change confined to one read of the key always reaches the result.
*/
module XXHashInjective {
  import opened Words
  import opened XXHash

  // Multiplicative inverses of the odd constants modulo 2^64.
  const INVERSE1: U64 := 614540362697595703
  const INVERSE2: U64 := 839798700976720815
  const INVERSE3: U64 := 16855272203555305545
  const INVERSE5: U64 := 14236653164957433613

  lemma Inverses()
    ensures Mul64(PRIME1, INVERSE1) == Mul64(INVERSE1, PRIME1) == 1
    ensures Mul64(PRIME2, INVERSE2) == Mul64(INVERSE2, PRIME2) == 1
    ensures Mul64(PRIME3, INVERSE3) == Mul64(INVERSE3, PRIME3) == 1
    ensures Mul64(PRIME5, INVERSE5) == 1
  {
  }

  lemma MulInjective(x: U64, y: U64, p: U64, i: U64)
    requires Mul64(p, i) == 1
    requires Mul64(x, p) == Mul64(y, p)
    ensures x == y
  {
    MulInverse(x, p, i);
    MulInverse(y, p, i);
  }

  lemma RotateInjective(x: U64, y: U64, k: nat)
    requires 0 < k < 64
    requires RotateLeft(x, k) == RotateLeft(y, k)
    ensures x == y
  {
    RotateBack(x, k);
    RotateBack(y, k);
  }

  // ---------- The stripe round ----------

  function UnRound(mixed: U64, input: U64): U64 {
    Sub64(RotateLeft(Mul64(mixed, INVERSE1), 33), Mul64(input, PRIME2))
  }

  /** For a fixed input the round is a bijection on the accumulator. */
  lemma RoundBijective(accumulator: U64, input: U64)
    ensures UnRound(Round(accumulator, input), input) == accumulator
    ensures Round(UnRound(accumulator, input), input) == accumulator
  {
    hide RotateLeft, Mul64, Add64, Sub64;
    Inverses();
    var sum := Add64(accumulator, Mul64(input, PRIME2));
    MulInverse(RotateLeft(sum, 31), PRIME1, INVERSE1);
    RotateBack(sum, 31);
    var turned := Mul64(accumulator, INVERSE1);
    RotateBack(turned, 33);
    SubAdd(accumulator, Mul64(input, PRIME2));
    SubAdd(RotateLeft(turned, 33), Mul64(input, PRIME2));
    MulInverse(accumulator, INVERSE1, PRIME1);
  }

  /** For a fixed accumulator the round is injective in its input. */
  lemma RoundInjectiveInInput(accumulator: U64, a: U64, b: U64)
    ensures Round(accumulator, a) == Round(accumulator, b) ==> a == b
  {
    hide RotateLeft, Mul64, Add64;
    if Round(accumulator, a) == Round(accumulator, b) {
      Inverses();
      var x, y := Add64(accumulator, Mul64(a, PRIME2)), Add64(accumulator, Mul64(b, PRIME2));
      MulInjective(RotateLeft(x, 31), RotateLeft(y, 31), PRIME1, INVERSE1);
      RotateInjective(x, y, 31);
      AddCommutes(accumulator, Mul64(a, PRIME2));
      AddCommutes(accumulator, Mul64(b, PRIME2));
      AddInjective(Mul64(a, PRIME2), Mul64(b, PRIME2), accumulator);
      MulInjective(a, b, PRIME2, INVERSE2);
    }
  }

  function UnMergeRound(merged: U64, value: U64): U64 {
    Xor64(Mul64(Sub64(merged, PRIME4), INVERSE1), Round(0, value))
  }

  /** Merging is a bijection on the running hash and injective in the accumulator merged. */
  lemma MergeRoundLosesNothing(hash: U64, v: U64, w: U64)
    ensures UnMergeRound(MergeRound(hash, v), v) == hash
    ensures MergeRound(UnMergeRound(hash, v), v) == hash
    ensures MergeRound(hash, v) == MergeRound(hash, w) ==> v == w
  {
    hide Round, Mul64, Add64, Sub64;
    Inverses();
    var x, y := Xor64(hash, Round(0, v)), Xor64(hash, Round(0, w));
    SubAdd(Mul64(x, PRIME1), PRIME4);
    MulInverse(x, PRIME1, INVERSE1);
    SubAdd(hash, PRIME4);
    MulInverse(Sub64(hash, PRIME4), INVERSE1, PRIME1);
    if MergeRound(hash, v) == MergeRound(hash, w) {
      AddInjective(Mul64(x, PRIME1), Mul64(y, PRIME1), PRIME4);
      MulInjective(x, y, PRIME1, INVERSE1);
      XorInjective(Round(0, v), Round(0, w), hash);
      RoundInjectiveInInput(0, v, w);
    }
  }

  function StripeStep(v: Accumulators, w: Accumulators): Accumulators {
    Accumulators(Round(v.v1, w.v1), Round(v.v2, w.v2), Round(v.v3, w.v3), Round(v.v4, w.v4))
  }

  function UnStripeStep(v: Accumulators, w: Accumulators): Accumulators {
    Accumulators(UnRound(v.v1, w.v1), UnRound(v.v2, w.v2), UnRound(v.v3, w.v3), UnRound(v.v4, w.v4))
  }

  /** One stripe permutes the accumulators, and distinct stripes move them apart. */
  lemma StripeStepLosesNothing(v: Accumulators, w: Accumulators, w': Accumulators)
    ensures UnStripeStep(StripeStep(v, w), w) == v
    ensures StripeStep(UnStripeStep(v, w), w) == v
    ensures StripeStep(v, w) == StripeStep(v, w') ==> w == w'
  {
    hide Round, UnRound;
    RoundBijective(v.v1, w.v1);
    RoundBijective(v.v2, w.v2);
    RoundBijective(v.v3, w.v3);
    RoundBijective(v.v4, w.v4);
    if StripeStep(v, w) == StripeStep(v, w') {
      RoundInjectiveInInput(v.v1, w.v1, w'.v1);
      RoundInjectiveInInput(v.v2, w.v2, w'.v2);
      RoundInjectiveInInput(v.v3, w.v3, w'.v3);
      RoundInjectiveInInput(v.v4, w.v4, w'.v4);
    }
  }

  // ---------- Reads ----------

  /** The two keys hold the same bytes in [from, to). */
  predicate Agree(a: Bytes, b: Bytes, from: nat, to: nat)
    requires from <= to <= |a| && to <= |b|
  {
    a[from..to] == b[from..to]
  }

  lemma {:induction false} SameWord(a: Bytes, b: Bytes, offset: nat, width: nat)
    requires offset + width <= |a| && offset + width <= |b|
    ensures LittleEndian(a, offset, width) == LittleEndian(b, offset, width)
      <==> Agree(a, b, offset, offset + width)
    decreases width
  {
    hide LittleEndian;
    if width == 0 {
      NoBytes(a, offset);
      NoBytes(b, offset);
    } else {
      SameWord(a, b, offset + 1, width - 1);
      var p, q := offset, offset + width;
      NextByte(a, offset, width);
      NextByte(b, offset, width);
      FirstDigit(a[p], LittleEndian(a, p + 1, width - 1), b[p], LittleEndian(b, p + 1, width - 1));
      assert a[p..q] == [a[p]] + a[p + 1..q];
      assert b[p..q] == [b[p]] + b[p + 1..q];
      assert a[p..q] == b[p..q] ==> a[p..q][1..] == b[p..q][1..] && a[p..q][0] == b[p..q][0];
    }
  }

  lemma NoBytes(key: Bytes, offset: nat)
    requires offset <= |key|
    ensures LittleEndian(key, offset, 0) == 0
  {
  }

  lemma FirstDigit(x: Byte, r: nat, y: Byte, s: nat)
    ensures x + 256 * r == y + 256 * s <==> x == y && r == s
  {
  }

  /** The input of accumulator lane in stripe i. */
  function LaneWord(key: Bytes, lane: nat, i: nat): U64
    requires lane < 4 && 32 * i + 32 <= |key|
  {
    Word(key, 32 * i + 8 * lane, 8)
  }

  function LanesOf(key: Bytes, i: nat): Accumulators
    requires 32 * i + 32 <= |key|
  {
    Accumulators(LaneWord(key, 0, i), LaneWord(key, 1, i), LaneWord(key, 2, i), LaneWord(key, 3, i))
  }

  /** A turn of the stripe loop is one stripe step on the lanes of its own stripe. */
  lemma StripesAreSteps(key: Bytes, seed: U64, s: nat)
    requires 32 * s + 32 <= |key|
    ensures Stripes(key, seed, s + 1) == StripeStep(Stripes(key, seed, s), LanesOf(key, s))
  {
    hide Round, Word, Add64, Sub64;
  }

  /** The start an accumulator must have had to end like this after s stripes. */
  function UnAccumulator(key: Bytes, end: U64, lane: nat, s: nat): U64
    requires lane < 4 && 32 * s <= |key|
    decreases s
  {
    if s == 0 then end else UnAccumulator(key, UnRound(end, LaneWord(key, lane, s - 1)), lane, s - 1)
  }

  /** For a fixed key the whole stripe loop is a bijection on each accumulator's start. */
  lemma {:induction false} StripeLoopBijective(key: Bytes, v: U64, lane: nat, s: nat)
    requires lane < 4 && 32 * s <= |key|
    ensures UnAccumulator(key, Accumulator(key, v, lane, s), lane, s) == v
    ensures Accumulator(key, UnAccumulator(key, v, lane, s), lane, s) == v
    decreases s
  {
    hide Round, UnRound, Word;
    if s > 0 {
      var w := LaneWord(key, lane, s - 1);
      StripeLoopBijective(key, v, lane, s - 1);
      RoundBijective(Accumulator(key, v, lane, s - 1), w);
      StripeLoopBijective(key, UnRound(v, w), lane, s - 1);
      RoundBijective(v, w);
    }
  }

  /** Different seeds leave the stripe loop with different accumulators. */
  lemma StripesTrackSeed(key: Bytes, seed: U64, seed': U64, s: nat)
    requires 32 * s <= |key|
    ensures Stripes(key, seed, s) == Stripes(key, seed', s) <==> seed == seed'
  {
    hide Accumulator, Add64, Sub64;
    StripeLoopBijective(key, seed, 2, s);
    StripeLoopBijective(key, seed', 2, s);
  }

  /** An accumulator is a one-to-one image of any single one of its lanes, and of nothing else. */
  lemma {:induction false} AccumulatorTracksLane(a: Bytes, b: Bytes, start: U64, lane: nat, s: nat, t: nat)
    requires lane < 4 && |a| == |b| && 32 * s <= |a| && t < s
    requires forall i | 0 <= i < s && i != t :: LaneWord(a, lane, i) == LaneWord(b, lane, i)
    ensures Accumulator(a, start, lane, s) == Accumulator(b, start, lane, s)
      <==> LaneWord(a, lane, t) == LaneWord(b, lane, t)
    decreases s
  {
    hide Round, UnRound, Word;
    var u, v := Accumulator(a, start, lane, s - 1), Accumulator(b, start, lane, s - 1);
    var x, y := LaneWord(a, lane, s - 1), LaneWord(b, lane, s - 1);
    assert Accumulator(a, start, lane, s) == Round(u, x) && Accumulator(b, start, lane, s) == Round(v, y);
    if t == s - 1 {
      AccumulatorsAgree(a, b, start, lane, s - 1);
      if Round(u, x) == Round(v, y) {
        RoundInjectiveInInput(u, x, y);
      }
    } else {
      AccumulatorTracksLane(a, b, start, lane, s - 1, t);
      RoundBijective(u, x);
      RoundBijective(v, y);
    }
  }

  lemma {:induction false} AccumulatorsAgree(a: Bytes, b: Bytes, start: U64, lane: nat, s: nat)
    requires lane < 4 && |a| == |b| && 32 * s <= |a|
    requires forall i | 0 <= i < s :: LaneWord(a, lane, i) == LaneWord(b, lane, i)
    ensures Accumulator(a, start, lane, s) == Accumulator(b, start, lane, s)
    decreases s
  {
    hide Round, Word;
    if s > 0 {
      AccumulatorsAgree(a, b, start, lane, s - 1);
      assert LaneWord(a, lane, s - 1) == LaneWord(b, lane, s - 1);
    }
  }

  predicate SameLanes(a: Bytes, b: Bytes, i: nat)
    requires |a| == |b| && 32 * i + 32 <= |a|
  {
    && LaneWord(a, 0, i) == LaneWord(b, 0, i) && LaneWord(a, 1, i) == LaneWord(b, 1, i)
    && LaneWord(a, 2, i) == LaneWord(b, 2, i) && LaneWord(a, 3, i) == LaneWord(b, 3, i)
  }

  lemma LanesAreTheStripe(a: Bytes, b: Bytes, i: nat)
    requires |a| == |b| && 32 * i + 32 <= |a|
    ensures SameLanes(a, b, i) <==> Agree(a, b, 32 * i, 32 * i + 32)
  {
    hide Word;
    var p := 32 * i;
    SameAsWord(a, b, p, 8);
    SameAsWord(a, b, p + 8, 8);
    SameAsWord(a, b, p + 16, 8);
    SameAsWord(a, b, p + 24, 8);
    FourLanes(a, p);
    FourLanes(b, p);
  }

  lemma FourLanes(key: Bytes, p: nat)
    requires p + 32 <= |key|
    ensures key[p..p + 32] == key[p..p + 8] + key[p + 8..p + 16] + key[p + 16..p + 24] + key[p + 24..p + 32]
    ensures var stripe := key[p..p + 32];
      && key[p..p + 8] == stripe[..8] && key[p + 8..p + 16] == stripe[8..16]
      && key[p + 16..p + 24] == stripe[16..24] && key[p + 24..p + 32] == stripe[24..]
  {
  }

  /** Keys that differ in one full stripe only leave the stripe loop with different accumulators. */
  lemma StripesTrackOneStripe(a: Bytes, b: Bytes, seed: U64, s: nat, t: nat)
    requires |a| == |b| && 32 * s <= |a| && t < s
    requires forall i | 0 <= i < s && i != t :: Agree(a, b, 32 * i, 32 * i + 32)
    ensures Stripes(a, seed, s) == Stripes(b, seed, s) <==> Agree(a, b, 32 * t, 32 * t + 32)
  {
    hide Accumulator, LaneWord, Add64, Sub64;
    forall i | 0 <= i < s && i != t
      ensures LaneWord(a, 0, i) == LaneWord(b, 0, i) && LaneWord(a, 1, i) == LaneWord(b, 1, i)
      ensures LaneWord(a, 2, i) == LaneWord(b, 2, i) && LaneWord(a, 3, i) == LaneWord(b, 3, i)
    {
      LanesAreTheStripe(a, b, i);
    }
    LanesAreTheStripe(a, b, t);
    AccumulatorTracksLane(a, b, Add64(Add64(seed, PRIME1), PRIME2), 0, s, t);
    AccumulatorTracksLane(a, b, Add64(seed, PRIME2), 1, s, t);
    AccumulatorTracksLane(a, b, seed, 2, s, t);
    AccumulatorTracksLane(a, b, Sub64(seed, PRIME1), 3, s, t);
  }

  lemma StripesAgree(a: Bytes, b: Bytes, seed: U64, s: nat)
    requires |a| == |b| && 32 * s <= |a|
    requires Agree(a, b, 0, 32 * s)
    ensures Stripes(a, seed, s) == Stripes(b, seed, s)
  {
    hide Accumulator, Word, Add64, Sub64;
    forall lane, i | 0 <= lane < 4 && 0 <= i < s
      ensures LaneWord(a, lane, i) == LaneWord(b, lane, i)
    {
      var p := 32 * i + 8 * lane;
      assert a[p..p + 8] == a[..32 * s][p..p + 8];
      assert b[p..p + 8] == b[..32 * s][p..p + 8];
      SameAsWord(a, b, p, 8);
    }
    AccumulatorsAgree(a, b, Add64(Add64(seed, PRIME1), PRIME2), 0, s);
    AccumulatorsAgree(a, b, Add64(seed, PRIME2), 1, s);
    AccumulatorsAgree(a, b, seed, 2, s);
    AccumulatorsAgree(a, b, Sub64(seed, PRIME1), 3, s);
  }

  lemma SameAsWord(a: Bytes, b: Bytes, offset: nat, width: nat)
    requires offset + width <= |a| && offset + width <= |b| && width <= 8
    ensures Word(a, offset, width) == Word(b, offset, width) <==> Agree(a, b, offset, offset + width)
  {
    SameWord(a, b, offset, width);
  }

  // ---------- The tail ----------

  lemma AbsorbInjectiveInHash(x: U64, y: U64, width: nat, value: U64)
    ensures Absorb(x, width, value) == Absorb(y, width, value) ==> x == y
  {
    hide RotateLeft, Mul64, Add64, Round, Xor64;
    Inverses();
    if Absorb(x, width, value) != Absorb(y, width, value) {
    } else if width == 8 {
      var d := Round(0, value);
      Peel(Xor64(x, d), Xor64(y, d), 27, PRIME1, INVERSE1, PRIME4);
      XorInjective(x, y, d);
    } else if width == 4 {
      var d := Mul64(value, PRIME1);
      Peel(Xor64(x, d), Xor64(y, d), 23, PRIME2, INVERSE2, PRIME3);
      XorInjective(x, y, d);
    } else {
      var d := Mul64(value, PRIME5);
      PeelByte(Xor64(x, d), Xor64(y, d));
      XorInjective(x, y, d);
    }
  }

  lemma AbsorbInjectiveInValue(hash: U64, width: nat, a: U64, b: U64)
    ensures Absorb(hash, width, a) == Absorb(hash, width, b) ==> a == b
  {
    hide RotateLeft, Mul64, Add64, Round, Xor64;
    Inverses();
    if Absorb(hash, width, a) != Absorb(hash, width, b) {
    } else if width == 8 {
      var x, y := Round(0, a), Round(0, b);
      Peel(Xor64(hash, x), Xor64(hash, y), 27, PRIME1, INVERSE1, PRIME4);
      XorInjective(x, y, hash);
      RoundInjectiveInInput(0, a, b);
    } else if width == 4 {
      var x, y := Mul64(a, PRIME1), Mul64(b, PRIME1);
      Peel(Xor64(hash, x), Xor64(hash, y), 23, PRIME2, INVERSE2, PRIME3);
      XorInjective(x, y, hash);
      MulInjective(a, b, PRIME1, INVERSE1);
    } else {
      var x, y := Mul64(a, PRIME5), Mul64(b, PRIME5);
      PeelByte(Xor64(hash, x), Xor64(hash, y));
      XorInjective(x, y, hash);
      MulInjective(a, b, PRIME5, INVERSE5);
    }
  }

  lemma Peel(x: U64, y: U64, k: nat, p: U64, i: U64, c: U64)
    requires 0 < k < 64 && Mul64(p, i) == 1
    ensures Add64(Mul64(RotateLeft(x, k), p), c) == Add64(Mul64(RotateLeft(y, k), p), c) ==> x == y
  {
    hide RotateLeft, Mul64, Add64;
    if Add64(Mul64(RotateLeft(x, k), p), c) == Add64(Mul64(RotateLeft(y, k), p), c) {
      AddInjective(Mul64(RotateLeft(x, k), p), Mul64(RotateLeft(y, k), p), c);
      MulInjective(RotateLeft(x, k), RotateLeft(y, k), p, i);
      RotateInjective(x, y, k);
    }
  }

  lemma PeelByte(x: U64, y: U64)
    ensures Mul64(RotateLeft(x, 11), PRIME1) == Mul64(RotateLeft(y, 11), PRIME1) ==> x == y
  {
    hide RotateLeft, Mul64;
    if Mul64(RotateLeft(x, 11), PRIME1) == Mul64(RotateLeft(y, 11), PRIME1) {
      Inverses();
      MulInjective(RotateLeft(x, 11), RotateLeft(y, 11), PRIME1, INVERSE1);
      RotateInjective(x, y, 11);
    }
  }

  /** The word the i-th tail read takes. */
  function TailWord(key: Bytes, i: nat): U64
    requires i < TailReads(|key|)
  {
    var r := TailRead(|key|, i);
    Word(key, r.offset, r.width)
  }

  lemma TailUnfolds(key: Bytes, h: U64, i: nat)
    requires 0 < i <= TailReads(|key|)
    ensures Tail(key, h, i) == Absorb(Tail(key, h, i - 1), TailRead(|key|, i - 1).width, TailWord(key, i - 1))
  {
  }

  lemma {:induction false} TailsAgree(a: Bytes, b: Bytes, h: U64, i: nat)
    requires |a| == |b| && i <= TailReads(|a|)
    requires forall j | 0 <= j < i :: TailWord(a, j) == TailWord(b, j)
    ensures Tail(a, h, i) == Tail(b, h, i)
    decreases i
  {
    hide Absorb, TailWord, TailRead, TailReads;
    if i > 0 {
      TailsAgree(a, b, h, i - 1);
      TailUnfolds(a, h, i);
      TailUnfolds(b, h, i);
    }
  }

  /** The tail is a one-to-one image of any single one of its reads. */
  lemma {:induction false} TailTracksRead(a: Bytes, b: Bytes, h: U64, i: nat, t: nat)
    requires |a| == |b| && t < i <= TailReads(|a|)
    requires forall j | 0 <= j < i && j != t :: TailWord(a, j) == TailWord(b, j)
    ensures Tail(a, h, i) == Tail(b, h, i) <==> TailWord(a, t) == TailWord(b, t)
    decreases i
  {
    hide Absorb, TailWord, TailRead, TailReads, Tail;
    TailUnfolds(a, h, i);
    TailUnfolds(b, h, i);
    var u, v, width := Tail(a, h, i - 1), Tail(b, h, i - 1), TailRead(|a|, i - 1).width;
    var x, y := TailWord(a, i - 1), TailWord(b, i - 1);
    if t == i - 1 {
      TailsAgree(a, b, h, i - 1);
      if Absorb(u, width, x) == Absorb(v, width, y) {
        AbsorbInjectiveInValue(u, width, x, y);
      }
    } else {
      TailTracksRead(a, b, h, i - 1, t);
      if Absorb(u, width, x) == Absorb(v, width, y) {
        AbsorbInjectiveInHash(u, v, width, x);
      }
    }
  }

  // ---------- The final mix ----------

  function UnAvalanche(hash: U64): U64 {
    UnXorShift(Mul64(UnXorShift(Mul64(UnXorShift(hash, 32), INVERSE3), 29), INVERSE2), 33)
  }

  /** The final mix is a bijection on the 64-bit words. */
  lemma AvalancheBijective(hash: U64)
    ensures UnAvalanche(Avalanche(hash)) == hash
    ensures Avalanche(UnAvalanche(hash)) == hash
  {
    hide XorShift, UnXorShift, Mul64;
    Inverses();
    var x1 := XorShift(hash, 33);
    var x2 := XorShift(Mul64(x1, PRIME2), 29);
    XorShiftBack(hash, 33);
    MulInverse(x1, PRIME2, INVERSE2);
    XorShiftBack(Mul64(x1, PRIME2), 29);
    MulInverse(x2, PRIME3, INVERSE3);
    XorShiftBack(Mul64(x2, PRIME3), 32);
    var y1 := UnXorShift(hash, 32);
    var y2 := UnXorShift(Mul64(y1, INVERSE3), 29);
    UnXorShiftBack(hash, 32);
    MulInverse(y1, INVERSE3, PRIME3);
    UnXorShiftBack(Mul64(y1, INVERSE3), 29);
    MulInverse(y2, INVERSE2, PRIME2);
    UnXorShiftBack(Mul64(y2, INVERSE2), 33);
  }

  // ---------- Keys that differ in one tail read ----------

  predicate InRead(r: Read, p: nat) { r.offset <= p < r.offset + r.width }

  /** Keys of one length with the same bytes outside tail read t. */
  predicate AgreeOff(a: Bytes, b: Bytes, t: nat)
    requires |a| == |b| && t < TailReads(|a|)
  {
    forall p | 0 <= p < |a| && !InRead(TailRead(|a|, t), p) :: a[p] == b[p]
  }

  /** The bytes of every other read agree when the keys agree off one read. */
  lemma OtherReadsAgree(a: Bytes, b: Bytes, t: nat, j: nat)
    requires |a| == |b| && t < TailReads(|a|) && j < TailReads(|a|) && j != t
    requires AgreeOff(a, b, t)
    ensures TailWord(a, j) == TailWord(b, j)
  {
    hide LayoutOf, Word;
    var r := TailRead(|a|, j);
    assert forall p | r.offset <= p < r.offset + r.width :: !InRead(TailRead(|a|, t), p);
    assert a[r.offset..r.offset + r.width] == b[r.offset..r.offset + r.width];
    SameAsWord(a, b, r.offset, r.width);
  }

  lemma HeadsAgree(a: Bytes, b: Bytes, seed: U64, t: nat)
    requires |a| == |b| && t < TailReads(|a|)
    requires AgreeOff(a, b, t)
    ensures Head(a, seed) == Head(b, seed)
  {
    hide Stripes, Converge, Add64;
    var s := LayoutOf(|a|).stripes;
    assert forall p | 0 <= p < 32 * s :: !InRead(TailRead(|a|, t), p) by {
      hide LayoutOf;
    }
    assert a[0..32 * s] == b[0..32 * s];
    StripesAgree(a, b, seed, s);
  }

  /** Equal-length keys that agree outside one tail read hash alike only if they are equal. */
  lemma TailReadReachesHash(a: Bytes, b: Bytes, seed: U64, t: nat)
    requires |a| == |b| && t < TailReads(|a|)
    requires AgreeOff(a, b, t)
    ensures XXH64(a, seed) == XXH64(b, seed) <==> a == b
  {
    hide Tail, Head, Avalanche, UnAvalanche, TailWord, Word, LayoutOf, TailReads;
    var n := TailReads(|a|);
    forall j | 0 <= j < n && j != t
      ensures TailWord(a, j) == TailWord(b, j)
    {
      OtherReadsAgree(a, b, t, j);
    }
    HeadsAgree(a, b, seed, t);
    var h := Head(a, seed);
    TailTracksRead(a, b, h, n, t);
    AvalancheBijective(Tail(a, h, n));
    AvalancheBijective(Tail(b, h, n));
    ReadDecidesKey(a, b, t);
  }

  lemma ReadDecidesKey(a: Bytes, b: Bytes, t: nat)
    requires |a| == |b| && t < TailReads(|a|)
    requires AgreeOff(a, b, t)
    ensures TailWord(a, t) == TailWord(b, t) <==> a == b
  {
    hide TailReads, LayoutOf, Word;
    var r := TailRead(|a|, t);
    SameAsWord(a, b, r.offset, r.width);
    if TailWord(a, t) == TailWord(b, t) {
      forall p | 0 <= p < |a|
        ensures a[p] == b[p]
      {
        if InRead(r, p) {
          assert a[p] == a[r.offset..r.offset + r.width][p - r.offset];
          assert b[p] == b[r.offset..r.offset + r.width][p - r.offset];
        }
      }
    }
  }

  /** The tail read that takes position p. */
  function ReaderOf(n: nat, p: nat): (t: nat)
    requires 32 * LayoutOf(n).stripes <= p < n
    ensures t < TailReads(n) && InRead(TailRead(n, t), p)
  {
    hide LayoutOf;
    var l := LayoutOf(n);
    var q := p - 32 * l.stripes;
    if q < 8 * l.lanes then q / 8
    else if q < 8 * l.lanes + 4 * l.words then l.lanes
    else l.lanes + l.words + (q - 8 * l.lanes - 4 * l.words)
  }

  /** Each byte of the key is consumed exactly once: by a stripe, or by one tail read. */
  lemma EachByteReadOnce(n: nat, p: nat, t: nat)
    requires p < n && t < TailReads(n)
    ensures InRead(TailRead(n, t), p) <==> 32 * LayoutOf(n).stripes <= p && t == ReaderOf(n, p)
  {
    hide LayoutOf;
  }

  /** Changing any one byte after the last full stripe changes the hash. */
  lemma TailByteReachesHash(key: Bytes, p: nat, b: Byte, seed: U64)
    requires |key| / 32 * 32 <= p < |key| && b != key[p]
    ensures XXH64(key[p := b], seed) != XXH64(key, seed)
  {
    hide XXH64, TailReads, TailRead;
    var t := ReaderOf(|key|, p);
    TailReadReachesHash(key[p := b], key, seed, t);
  }

  /** Keys of 1, 4 or 8 bytes are one read, so XXH64 is injective on each of these lengths. */
  lemma OneReadKeysInjective(a: Bytes, b: Bytes, seed: U64)
    requires |a| == |b| && |a| in {1, 4, 8}
    ensures XXH64(a, seed) == XXH64(b, seed) <==> a == b
  {
    hide XXH64, TailReads, TailRead;
    OneRead(|a|);
    TailReadReachesHash(a, b, seed, 0);
  }

  lemma OneRead(n: nat)
    requires n in {1, 4, 8}
    ensures TailReads(n) == 1 && TailRead(n, 0) == Read(0, n)
  {
    assert LayoutOf(8) == Layout(0, 1, 0, 0) && LayoutOf(4) == Layout(0, 0, 1, 0) && LayoutOf(1) == Layout(0, 0, 0, 1);
  }

  // ---------- Every hash is reached through any one lane ----------

  /** The hash before an absorb that ended in mixed. */
  function UnAbsorb(mixed: U64, width: nat, value: U64): U64 {
    if width == 8 then Xor64(RotateLeft(Mul64(Sub64(mixed, PRIME4), INVERSE1), 37), Round(0, value))
    else if width == 4 then Xor64(RotateLeft(Mul64(Sub64(mixed, PRIME3), INVERSE2), 41), Mul64(value, PRIME1))
    else Xor64(RotateLeft(Mul64(mixed, INVERSE1), 53), Mul64(value, PRIME5))
  }

  /** For a fixed value every tail step is a bijection on the running hash. */
  lemma AbsorbBijective(hash: U64, width: nat, value: U64)
    ensures Absorb(UnAbsorb(hash, width, value), width, value) == hash
    ensures UnAbsorb(Absorb(hash, width, value), width, value) == hash
  {
    AbsorbOnto(hash, width, value);
    AbsorbOnto(Absorb(hash, width, value), width, value);
    hide Absorb, UnAbsorb;
    AbsorbInjectiveInHash(UnAbsorb(Absorb(hash, width, value), width, value), hash, width, value);
  }

  lemma AbsorbOnto(mixed: U64, width: nat, value: U64)
    ensures Absorb(UnAbsorb(mixed, width, value), width, value) == mixed
  {
    hide RotateLeft, Mul64, Add64, Sub64, Round;
    Inverses();
    if width == 8 {
      UnPeel(Sub64(mixed, PRIME4), 37, INVERSE1, PRIME1);
      SubAdd(mixed, PRIME4);
    } else if width == 4 {
      UnPeel(Sub64(mixed, PRIME3), 41, INVERSE2, PRIME2);
      SubAdd(mixed, PRIME3);
    } else {
      UnPeel(mixed, 53, INVERSE1, PRIME1);
    }
  }

  lemma UnPeel(m: U64, k: nat, i: U64, p: U64)
    requires 0 < k < 64 && Mul64(i, p) == 1
    ensures Mul64(RotateLeft(RotateLeft(Mul64(m, i), k), 64 - k), p) == m
  {
    hide RotateLeft;
    RotateBack(Mul64(m, i), k);
    MulInverse(m, i, p);
  }

  /** The lane that takes a hash to mixed. */
  function LaneBetween(hash: U64, mixed: U64): U64 {
    var k := Xor64(RotateLeft(Mul64(Sub64(mixed, PRIME4), INVERSE1), 37), hash);
    Mul64(UnRound(k, 0), INVERSE2)
  }

  lemma LaneBetweenAbsorbs(hash: U64, mixed: U64)
    ensures AbsorbLane(hash, LaneBetween(hash, mixed)) == mixed
  {
    hide RotateLeft, Mul64, Add64, Sub64, UnRound;
    Inverses();
    var turned := RotateLeft(Mul64(Sub64(mixed, PRIME4), INVERSE1), 37);
    var k := Xor64(turned, hash);
    UnPeel(Sub64(mixed, PRIME4), 37, INVERSE1, PRIME1);
    SubAdd(mixed, PRIME4);
    XorCommutes(hash, k);
    RoundOfZero(k);
  }

  lemma RoundOfZero(k: U64)
    ensures Round(0, Mul64(UnRound(k, 0), INVERSE2)) == k
  {
    hide RotateLeft;
    Inverses();
    MulInverse(UnRound(k, 0), INVERSE2, PRIME2);
    RoundBijective(k, 0);
    assert Mul64(0, PRIME2) == 0;
  }

  /** The hash after j tail reads that ends as end after i of them. */
  function TailBefore(key: Bytes, end: U64, i: nat, j: nat): U64
    requires j <= i <= TailReads(|key|)
    decreases i
  {
    if i == j then end
    else TailBefore(key, UnAbsorb(end, TailRead(|key|, i - 1).width, TailWord(key, i - 1)), i - 1, j)
  }

  lemma {:induction false} TailBeforeLeads(key: Bytes, k: Bytes, h: U64, end: U64, i: nat, j: nat)
    requires |k| == |key| && j <= i <= TailReads(|key|)
    requires forall m | j <= m < i :: TailWord(k, m) == TailWord(key, m)
    requires Tail(k, h, j) == TailBefore(key, end, i, j)
    ensures Tail(k, h, i) == end
    decreases i
  {
    hide Absorb, UnAbsorb, Tail, TailRead, TailReads, TailWord;
    if j < i {
      var width, w := TailRead(|key|, i - 1).width, TailWord(key, i - 1);
      TailBeforeLeads(key, k, h, UnAbsorb(end, width, w), i - 1, j);
      TailUnfolds(k, h, i);
      AbsorbBijective(end, width, w);
    }
  }

  /** The low width bytes of w, least significant first. */
  function BytesOf(w: nat, width: nat): (b: Bytes)
    ensures |b| == width
    decreases width
  {
    if width == 0 then [] else [w % 256] + BytesOf(w / 256, width - 1)
  }

  lemma {:induction false} BytesOfReadBack(prefix: Bytes, w: nat, width: nat, suffix: Bytes)
    requires w < Pow2(8 * width)
    ensures LittleEndian(prefix + BytesOf(w, width) + suffix, |prefix|, width) == w
    decreases width
  {
    if width > 0 {
      assert Pow2(8) == 256;
      Pow2Product(8, 8 * width - 8);
      var key := prefix + BytesOf(w, width) + suffix;
      assert key == (prefix + [w % 256]) + BytesOf(w / 256, width - 1) + suffix;
      BytesOfReadBack(prefix + [w % 256], w / 256, width - 1, suffix);
      NextByte(key, |prefix|, width);
    }
  }

  /** Tail read t of an n-byte key is an 8-byte lane. */
  predicate IsLane(n: nat, t: nat) {
    t < TailReads(n) && TailRead(n, t).width == 8
  }

  /** The key with lane t rewritten so that it hashes to target. */
  function FillLane(key: Bytes, t: nat, target: U64, seed: U64): (k: Bytes)
    requires IsLane(|key|, t)
    ensures |k| == |key| && AgreeOff(key, k, t)
  {
    Splice(key, TailRead(|key|, t).offset, BytesOf(LaneFor(key, t, target, seed), 8))
  }

  function Splice(key: Bytes, offset: nat, filling: Bytes): (k: Bytes)
    requires offset + |filling| <= |key|
    ensures |k| == |key|
    ensures forall p | 0 <= p < |key| && !(offset <= p < offset + |filling|) :: k[p] == key[p]
  {
    key[..offset] + filling + key[offset + |filling|..]
  }

  function LaneFor(key: Bytes, t: nat, target: U64, seed: U64): U64
    requires IsLane(|key|, t)
  {
    LaneBetween(Tail(key, Head(key, seed), t),
                TailBefore(key, UnAvalanche(target), TailReads(|key|), t + 1))
  }

  lemma FilledWord(key: Bytes, t: nat, target: U64, seed: U64)
    requires IsLane(|key|, t)
    ensures TailWord(FillLane(key, t, target, seed), t) == LaneFor(key, t, target, seed)
  {
    hide LaneFor, LittleEndian, LayoutOf, BytesOf;
    var offset := TailRead(|key|, t).offset;
    Pow2At64();
    BytesOfReadBack(key[..offset], LaneFor(key, t, target, seed), 8, key[offset + 8..]);
  }

  lemma FilledTail(key: Bytes, t: nat, target: U64, seed: U64)
    requires IsLane(|key|, t)
    ensures XXH64(FillLane(key, t, target, seed), seed) == target
  {
    hide Tail, Head, Avalanche, UnAvalanche, TailBefore, TailWord, LaneBetween, FillLane, LayoutOf, TailReads, TailRead;
    hide AgreeOff, AbsorbLane;
    var k, n, h := FillLane(key, t, target, seed), TailReads(|key|), Head(key, seed);
    var end := UnAvalanche(target);
    forall j | 0 <= j < n && j != t
      ensures TailWord(k, j) == TailWord(key, j)
    {
      OtherReadsAgree(key, k, t, j);
    }
    HeadsAgree(key, k, seed, t);
    TailsAgree(key, k, h, t);
    FilledWord(key, t, target, seed);
    TailUnfolds(k, h, t + 1);
    LaneBetweenAbsorbs(Tail(key, h, t), TailBefore(key, end, n, t + 1));
    TailBeforeLeads(key, k, h, end, n, t + 1);
    AvalancheBijective(target);
  }

  /**
    Fix every byte of a key but those of one 8-byte tail lane: each 64-bit value is
    the hash of exactly one filling of that lane.
  */
  lemma LaneReachesEveryHash(key: Bytes, t: nat, target: U64, seed: U64, k: Bytes)
    requires IsLane(|key|, t) && |k| == |key| && AgreeOff(key, k, t)
    ensures XXH64(k, seed) == target <==> k == FillLane(key, t, target, seed)
  {
    hide XXH64, FillLane, TailReads, TailRead;
    var f := FillLane(key, t, target, seed);
    FilledTail(key, t, target, seed);
    TailReadReachesHash(k, f, seed, t);
  }

  // ---------- Eight-byte keys ----------

  /** The one 8-byte key with a given hash. */
  function EightByteKey(hash: U64, seed: U64): (key: Bytes)
    ensures |key| == 8
  {
    OneRead(8);
    FillLane(ZERO_LANE, 0, hash, seed)
  }

  const ZERO_LANE: Bytes := [0, 0, 0, 0, 0, 0, 0, 0]

  /** On 8-byte keys XXH64 is a bijection onto the 64-bit words. */
  lemma EightByteKeysBijective(key: Bytes, hash: U64, seed: U64)
    requires |key| == 8
    ensures XXH64(key, seed) == hash <==> key == EightByteKey(hash, seed)
  {
    hide XXH64, FillLane, TailReads, TailRead;
    OneRead(8);
    LaneReachesEveryHash(ZERO_LANE, 0, hash, seed, key);
  }
}
