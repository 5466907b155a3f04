/**
  The word operations on concrete numbers. Rotations and shifts become quotients
  and remainders by written-out powers, and the exclusive or defined bit by bit is
  proved to be that of the bit-vectors, so that every step of the hash evaluates.
*/
module WordValues {
  import opened Words

  // ---------- Powers, shifts and rotations ----------

  lemma Powers()
    ensures Pow2(1) == 2 && Pow2(63) == 0x8000_0000_0000_0000
    ensures Pow2(7) == 0x80 && Pow2(57) == 0x200_0000_0000_0000
    ensures Pow2(11) == 0x800 && Pow2(53) == 0x20_0000_0000_0000
    ensures Pow2(12) == 0x1000 && Pow2(52) == 0x10_0000_0000_0000
    ensures Pow2(18) == 0x4_0000 && Pow2(46) == 0x4000_0000_0000
    ensures Pow2(23) == 0x80_0000 && Pow2(41) == 0x200_0000_0000
    ensures Pow2(27) == 0x800_0000 && Pow2(37) == 0x20_0000_0000
    ensures Pow2(31) == 0x8000_0000 && Pow2(33) == 0x2_0000_0000
    ensures Pow2(29) == 0x2000_0000 && Pow2(32) == 0x1_0000_0000
    ensures Pow2(8) == 0x100 && Pow2(16) == 0x1_0000
  {
    assert Pow2(1) == 2 && Pow2(4) == 0x10 && Pow2(7) == 0x80;
    Pow2Product(7, 1);
    Pow2Product(8, 8);
    Pow2Product(7, 4);
    Pow2Product(11, 1);
    Pow2Product(11, 7);
    Pow2Product(12, 11);
    Pow2Product(23, 4);
    Pow2Product(27, 4);
    Pow2Product(18, 11);
    Pow2Product(31, 1);
    Pow2Product(32, 1);
    Pow2Product(33, 4);
    Pow2Product(23, 18);
    Pow2Product(23, 23);
    Pow2Product(41, 11);
    Pow2Product(52, 1);
    Pow2Product(46, 11);
    Pow2Product(52, 11);
  }

  /** The shifts of the final mix are quotients. */
  lemma ShiftValues(x: nat)
    ensures Shr(x, 29) == x / 0x2000_0000
    ensures Shr(x, 32) == x / 0x1_0000_0000
    ensures Shr(x, 33) == x / 0x2_0000_0000
  {
    hide Pow2, Shr;
    Powers();
    ShrIs(x, 29, x / 0x2000_0000, x % 0x2000_0000);
    ShrIs(x, 32, x / 0x1_0000_0000, x % 0x1_0000_0000);
    ShrIs(x, 33, x / 0x2_0000_0000, x % 0x2_0000_0000);
  }

  lemma RotateIs(x: U64, k: nat, high: nat, low: nat)
    requires 0 < k < 64 && low < Pow2(64 - k) && x == high * Pow2(64 - k) + low
    ensures RotateLeft(x, k) == low * Pow2(k) + high
  {
    var high', low' := RotateHalves(x, k);
    WrapShifted(high', low', k);
    SplitUnique(high, low, high', low', Pow2(64 - k));
  }

  /** Each rotation of the hash moves the low bits up and brings the high bits round. */
  lemma RotationValues(x: U64)
    ensures RotateLeft(x, 1) == x % 0x8000_0000_0000_0000 * 2 + x / 0x8000_0000_0000_0000
    ensures RotateLeft(x, 7) == x % 0x200_0000_0000_0000 * 0x80 + x / 0x200_0000_0000_0000
    ensures RotateLeft(x, 11) == x % 0x20_0000_0000_0000 * 0x800 + x / 0x20_0000_0000_0000
    ensures RotateLeft(x, 12) == x % 0x10_0000_0000_0000 * 0x1000 + x / 0x10_0000_0000_0000
    ensures RotateLeft(x, 18) == x % 0x4000_0000_0000 * 0x4_0000 + x / 0x4000_0000_0000
    ensures RotateLeft(x, 23) == x % 0x200_0000_0000 * 0x80_0000 + x / 0x200_0000_0000
    ensures RotateLeft(x, 27) == x % 0x20_0000_0000 * 0x800_0000 + x / 0x20_0000_0000
    ensures RotateLeft(x, 31) == x % 0x2_0000_0000 * 0x8000_0000 + x / 0x2_0000_0000
  {
    hide Pow2, RotateLeft;
    Powers();
    RotateIs(x, 1, x / 0x8000_0000_0000_0000, x % 0x8000_0000_0000_0000);
    RotateIs(x, 7, x / 0x200_0000_0000_0000, x % 0x200_0000_0000_0000);
    RotateIs(x, 11, x / 0x20_0000_0000_0000, x % 0x20_0000_0000_0000);
    RotateIs(x, 12, x / 0x10_0000_0000_0000, x % 0x10_0000_0000_0000);
    RotateIs(x, 18, x / 0x4000_0000_0000, x % 0x4000_0000_0000);
    RotateIs(x, 23, x / 0x200_0000_0000, x % 0x200_0000_0000);
    RotateIs(x, 27, x / 0x20_0000_0000, x % 0x20_0000_0000);
    RotateIs(x, 31, x / 0x2_0000_0000, x % 0x2_0000_0000);
  }

  // ---------- Exclusive or ----------

  /** Exclusive or works on the two halves of its operands apart. */
  lemma {:induction false} XorHalves(x: nat, y: nat, a: nat, b: nat, k: nat)
    requires a < Pow2(k) && b < Pow2(k)
    ensures Xor(Pow2(k) * x + a, Pow2(k) * y + b) == Pow2(k) * Xor(x, y) + Xor(a, b)
  {
    hide Xor;
    if k == 0 {
      assert a == 0 && b == 0 && Pow2(0) == 1 && Pow2(0) * x == x && Pow2(0) * y == y;
      XorZero(0);
    } else {
      var p := Pow2(k - 1);
      XorHalves(x, y, a / 2, b / 2, k - 1);
      XorDouble(p * x, p * y, a, b);
      Doubled(p, x);
      Doubled(p, y);
      Doubled(p, Xor(x, y));
    }
  }

  lemma Doubled(p: nat, x: nat)
    ensures 2 * p * x == 2 * (p * x)
  {
  }

  lemma XorDouble(u: nat, v: nat, a: nat, b: nat)
    ensures Xor(2 * u + a, 2 * v + b) - Xor(a, b) == 2 * (Xor(u + a / 2, v + b / 2) - Xor(a / 2, b / 2))
  {
    hide Xor;
    XorParts(2 * u + a, 2 * v + b);
    XorParts(a, b);
    assert (2 * u + a) / 2 == u + a / 2 && (2 * u + a) % 2 == a % 2;
    assert (2 * v + b) / 2 == v + b / 2 && (2 * v + b) % 2 == b % 2;
  }

  // The bit-vectors, behind names: their numbers, their exclusive or, and how the wide ones are joined.

  function N8(a: bv8): nat { a as nat }
  function N16(a: bv16): nat { a as nat }
  function N32(a: bv32): nat { a as nat }
  function N64(a: bv64): U64 { a as nat }

  function X8(a: bv8, b: bv8): bv8 { a ^ b }
  function X16(a: bv16, b: bv16): bv16 { a ^ b }
  function X32(a: bv32, b: bv32): bv32 { a ^ b }
  function X64(a: bv64, b: bv64): bv64 { a ^ b }

  lemma HalvesOf8(a: bv8)
    ensures N8(a) / 2 == N8(a >> 1)
    ensures N8(a) % 2 == if a & 1 == 0 then 0 else 1
    ensures N8(a) == 0 <==> a == 0
  {
  }

  lemma HalvesOfXor8(a: bv8, b: bv8)
    ensures X8(a, b) & 1 == 0 <==> (a & 1 == 0 <==> b & 1 == 0)
    ensures X8(a, b) >> 1 == X8(a >> 1, b >> 1)
  {
  }

  lemma {:induction false} Xor8(a: bv8, b: bv8)
    ensures Xor(N8(a), N8(b)) == N8(X8(a, b))
    decreases N8(a) + N8(b)
  {
    hide Xor, N8;
    HalvesOf8(a);
    HalvesOf8(b);
    HalvesOf8(X8(a, b));
    HalvesOfXor8(a, b);
    if a == 0 && b == 0 {
      XorZero(0);
    } else {
      XorParts(N8(a), N8(b));
      Xor8(a >> 1, b >> 1);
      SameHalves(Xor(N8(a), N8(b)), N8(X8(a, b)));
    }
  }

  function Join16(high: bv8, low: bv8): bv16 { ((high as bv16) << 8) | (low as bv16) }

  lemma Concat16(high: bv8, low: bv8)
    ensures (((high as bv16) << 8) | (low as bv16)) as nat == 0x100 * (high as nat) + low as nat
  {
  }

  lemma Join16Is(high: bv8, low: bv8)
    ensures N16(Join16(high, low)) == 0x100 * N8(high) + N8(low) && N8(low) < 0x100
  {
    Concat16(high, low);
  }

  lemma Join16Xor(high: bv8, low: bv8, high': bv8, low': bv8)
    ensures X16(Join16(high, low), Join16(high', low')) == Join16(X8(high, high'), X8(low, low'))
  {
  }

  lemma Split16(a: bv16) returns (high: bv8, low: bv8)
    ensures a == Join16(high, low)
  {
    high, low := (a >> 8) as bv8, (a & 0xFF) as bv8;
  }

  lemma Xor16(a: bv16, b: bv16)
    ensures Xor(N16(a), N16(b)) == N16(X16(a, b))
  {
    hide *;
    var high, low := Split16(a);
    var high', low' := Split16(b);
    Join16Is(high, low);
    Join16Is(high', low');
    Join16Xor(high, low, high', low');
    Xor8(high, high');
    Xor8(low, low');
    Join16Is(X8(high, high'), X8(low, low'));
    assert Pow2(8) == 0x100 by { Powers(); }
    XorHalves(N8(high), N8(high'), N8(low), N8(low'), 8);
  }

  function Join32(high: bv16, low: bv16): bv32 { ((high as bv32) << 16) | (low as bv32) }

  lemma Concat32(high: bv16, low: bv16)
    ensures (((high as bv32) << 16) | (low as bv32)) as nat == 0x1_0000 * (high as nat) + low as nat
  {
  }

  lemma Join32Is(high: bv16, low: bv16)
    ensures N32(Join32(high, low)) == 0x1_0000 * N16(high) + N16(low) && N16(low) < 0x1_0000
  {
    Concat32(high, low);
  }

  lemma Join32Xor(high: bv16, low: bv16, high': bv16, low': bv16)
    ensures X32(Join32(high, low), Join32(high', low')) == Join32(X16(high, high'), X16(low, low'))
  {
  }

  lemma Split32(a: bv32) returns (high: bv16, low: bv16)
    ensures a == Join32(high, low)
  {
    high, low := (a >> 16) as bv16, (a & 0xFFFF) as bv16;
  }

  lemma Xor32(a: bv32, b: bv32)
    ensures Xor(N32(a), N32(b)) == N32(X32(a, b))
  {
    hide *;
    var high, low := Split32(a);
    var high', low' := Split32(b);
    Join32Is(high, low);
    Join32Is(high', low');
    Join32Xor(high, low, high', low');
    Xor16(high, high');
    Xor16(low, low');
    Join32Is(X16(high, high'), X16(low, low'));
    assert Pow2(16) == 0x1_0000 by { Powers(); }
    XorHalves(N16(high), N16(high'), N16(low), N16(low'), 16);
  }

  function Join64(high: bv32, low: bv32): bv64 { ((high as bv64) << 32) | (low as bv64) }

  lemma Concat64(high: bv32, low: bv32)
    ensures (((high as bv64) << 32) | (low as bv64)) as nat == 0x1_0000_0000 * (high as nat) + low as nat
  {
  }

  lemma Join64Is(high: bv32, low: bv32)
    ensures N64(Join64(high, low)) == 0x1_0000_0000 * N32(high) + N32(low) && N32(low) < 0x1_0000_0000
  {
    Concat64(high, low);
  }

  lemma Join64Xor(high: bv32, low: bv32, high': bv32, low': bv32)
    ensures X64(Join64(high, low), Join64(high', low')) == Join64(X32(high, high'), X32(low, low'))
  {
  }

  lemma Split64(a: bv64) returns (high: bv32, low: bv32)
    ensures a == Join64(high, low)
  {
    high, low := (a >> 32) as bv32, (a & 0xFFFF_FFFF) as bv32;
  }

  /** The exclusive or defined bit by bit is that of the 64-bit vectors. */
  lemma XorIsBitwise(a: bv64, b: bv64)
    ensures Xor(N64(a), N64(b)) == N64(X64(a, b))
  {
    hide *;
    var high, low := Split64(a);
    var high', low' := Split64(b);
    Join64Is(high, low);
    Join64Is(high', low');
    Join64Xor(high, low, high', low');
    Xor32(high, high');
    Xor32(low, low');
    Join64Is(X32(high, high'), X32(low, low'));
    assert Pow2(32) == 0x1_0000_0000 by { Powers(); }
    XorHalves(N32(high), N32(high'), N32(low), N32(low'), 32);
  }
}
