/**
  Fixed-width unsigned words as bounded naturals, with the wrapping and bitwise
  operations that Go gives uint64, and the facts that make each of them
  reversible.
*/
module Words {

  type U8 = x: nat | x < 0x100
  type U16 = x: nat | x < 0x1_0000
  type U32 = x: nat | x < 0x1_0000_0000
  type U64 = x: nat | x < 0x1_0000_0000_0000_0000
  type I32 = x: int | -0x8000_0000 <= x < 0x8000_0000
  type I64 = x: int | -0x8000_0000_0000_0000 <= x < 0x8000_0000_0000_0000

  type Byte = U8
  type Bytes = seq<Byte>

  const TWO_TO_THE_64: nat := 0x1_0000_0000_0000_0000

  // ---------- Wrapping arithmetic ----------

  /** Reduction to 64 bits; Go's +, - and * on uint64 reduce this way. */
  function Wrap64(x: int): U64 { x % 0x1_0000_0000_0000_0000 }

  function Add64(x: U64, y: U64): U64 { Wrap64(x + y) }

  function Sub64(x: U64, y: U64): U64 { Wrap64(x - y) }

  function Mul64(x: U64, y: U64): U64 { Wrap64(x * y) }

  lemma WrapIs(x: int, q: int, r: U64)
    requires x == q * 0x1_0000_0000_0000_0000 + r
    ensures Wrap64(x) == r
  {
  }

  lemma AddInjective(x: U64, y: U64, d: U64)
    requires Add64(x, d) == Add64(y, d)
    ensures x == y
  {
  }

  lemma AddCommutes(x: U64, y: U64)
    ensures Add64(x, y) == Add64(y, x)
  {
  }

  lemma SubAdd(x: U64, d: U64)
    ensures Sub64(Add64(x, d), d) == x
    ensures Add64(Sub64(x, d), d) == x
  {
    var carry := if x + d < TWO_TO_THE_64 then 0 else 1;
    WrapIs(x + d, carry, x + d - carry * TWO_TO_THE_64);
    WrapIs(Add64(x, d) - d, -carry, x);
    var borrow := if d <= x then 0 else 1;
    WrapIs(x - d, -borrow, x - d + borrow * TWO_TO_THE_64);
    WrapIs(Sub64(x, d) + d, borrow, x);
  }

  /** A word with a multiplicative inverse can be multiplied away. */
  lemma MulInverse(x: U64, p: U64, i: U64)
    requires Mul64(p, i) == 1
    ensures Mul64(Mul64(x, p), i) == x
  {
    var c := (p * i) / TWO_TO_THE_64;
    var q := (x * p) / TWO_TO_THE_64;
    calc {
      Mul64(x, p) * i;
      (x * p - q * TWO_TO_THE_64) * i;
      x * (p * i) - q * TWO_TO_THE_64 * i;
      x * (c * TWO_TO_THE_64 + 1) - q * TWO_TO_THE_64 * i;
      (x * c - q * i) * TWO_TO_THE_64 + x;
    }
    WrapIs(Mul64(x, p) * i, x * c - q * i, x);
  }

  // ---------- Powers and right shifts ----------

  function Pow2(k: nat): (p: nat)
    ensures 0 < p
  {
    if k == 0 then 1 else 2 * Pow2(k - 1)
  }

  lemma {:induction false} Pow2Product(a: nat, b: nat)
    ensures Pow2(a) * Pow2(b) == Pow2(a + b)
  {
    if a > 0 {
      Pow2Product(a - 1, b);
    }
  }

  lemma Pow2At64()
    ensures Pow2(64) == 0x1_0000_0000_0000_0000
  {
    hide Pow2;
    Pow2At4();
    Pow2Product(4, 4);
    Pow2Product(8, 8);
    Pow2Product(16, 16);
    Pow2Product(32, 32);
  }

  lemma Pow2At4()
    ensures Pow2(4) == 0x10
  {
  }

  /** x >> k: drop the low k bits, one halving per bit. */
  function Shr(x: nat, k: nat): nat
    decreases k
  {
    if k == 0 then x else Shr(x / 2, k - 1)
  }

  lemma {:induction false} ShrSplits(x: nat, k: nat) returns (low: nat)
    ensures low < Pow2(k)
    ensures x == Shr(x, k) * Pow2(k) + low
    decreases k
  {
    if k == 0 {
      low := 0;
    } else {
      var rest := ShrSplits(x / 2, k - 1);
      low := 2 * rest + x % 2;
      calc {
        x;
        2 * (Shr(x / 2, k - 1) * Pow2(k - 1) + rest) + x % 2;
        Shr(x, k) * (2 * Pow2(k - 1)) + low;
      }
    }
  }

  /** Quotient and remainder are the only way to split a number at m. */
  lemma SplitUnique(q: nat, r: nat, q': nat, r': nat, m: nat)
    requires r < m && r' < m
    requires q * m + r == q' * m + r'
    ensures q == q' && r == r'
  {
    if q < q' {
      MulStep(q, q', m);
    } else if q' < q {
      MulStep(q', q, m);
    }
  }

  lemma MulStep(a: nat, b: nat, m: nat)
    requires a < b
    ensures a * m + m <= b * m
  {
    var d := b - a - 1;
    assert b * m == (a + 1 + d) * m == a * m + m + d * m;
  }

  lemma ShrIs(x: nat, k: nat, q: nat, r: nat)
    requires r < Pow2(k) && x == q * Pow2(k) + r
    ensures Shr(x, k) == q
  {
    var low := ShrSplits(x, k);
    SplitUnique(Shr(x, k), low, q, r, Pow2(k));
  }

  lemma {:induction false} ShrTwice(x: nat, a: nat, b: nat)
    ensures Shr(Shr(x, a), b) == Shr(x, a + b)
    decreases a
  {
    if a > 0 {
      ShrTwice(x / 2, a - 1, b);
    }
  }

  lemma ShrSmall(x: nat, k: nat)
    requires x < Pow2(k)
    ensures Shr(x, k) == 0
  {
    ShrIs(x, k, 0, x);
  }

  // ---------- Exclusive or ----------

  /** x ^ y, bit by bit from the least significant end. */
  function Xor(x: nat, y: nat): nat
    decreases x + y
  {
    if x == 0 && y == 0 then 0
    else (if x % 2 == y % 2 then 0 else 1) + 2 * Xor(x / 2, y / 2)
  }

  lemma XorParts(x: nat, y: nat)
    ensures Xor(x, y) / 2 == Xor(x / 2, y / 2)
    ensures Xor(x, y) % 2 == if x % 2 == y % 2 then 0 else 1
  {
  }

  lemma SameHalves(x: nat, y: nat)
    requires x / 2 == y / 2 && x % 2 == y % 2
    ensures x == y
  {
  }

  lemma {:induction false} XorCancel(x: nat, y: nat)
    ensures Xor(Xor(x, y), y) == x
    decreases x + y
  {
    if x != 0 || y != 0 {
      var z := Xor(x, y);
      XorParts(x, y);
      XorParts(z, y);
      XorCancel(x / 2, y / 2);
      SameHalves(Xor(z, y), x);
    }
  }

  lemma {:induction false} XorCommutes(x: nat, y: nat)
    ensures Xor(x, y) == Xor(y, x)
    decreases x + y
  {
    if x != 0 || y != 0 {
      XorCommutes(x / 2, y / 2);
    }
  }

  lemma {:induction false} XorBound(x: nat, y: nat, k: nat)
    requires x < Pow2(k) && y < Pow2(k)
    ensures Xor(x, y) < Pow2(k)
  {
    if k > 0 {
      XorBound(x / 2, y / 2, k - 1);
      XorParts(x, y);
    }
  }

  lemma {:induction false} ShrXor(x: nat, y: nat, k: nat)
    ensures Shr(Xor(x, y), k) == Xor(Shr(x, k), Shr(y, k))
    decreases k
  {
    if k > 0 {
      XorParts(x, y);
      ShrXor(x / 2, y / 2, k - 1);
    }
  }

  /** Bit k of x ^ y is set exactly when x and y disagree on bit k. */
  lemma XorBit(x: nat, y: nat, k: nat)
    ensures Shr(Xor(x, y), k) % 2 == 1 <==> Shr(x, k) % 2 != Shr(y, k) % 2
  {
    ShrXor(x, y, k);
    XorParts(Shr(x, k), Shr(y, k));
  }

  function Xor64(x: U64, y: U64): (r: U64)
    ensures Xor(r, y) == x
    ensures Xor(x, r) == y
  {
    Pow2At64();
    XorBound(x, y, 64);
    XorCancel(x, y);
    XorCommutes(x, y);
    XorCancel(y, x);
    XorCommutes(x, Xor(x, y));
    Xor(x, y)
  }

  lemma XorInjective(x: U64, y: U64, d: U64)
    ensures Xor64(x, d) == Xor64(y, d) ==> x == y
    ensures Xor64(d, x) == Xor64(d, y) ==> x == y
  {
  }

  // ---------- Rotation and the xor-shift ----------

  /** bits.RotateLeft64: the k high bits re-enter at the low end. */
  function RotateLeft(x: U64, k: nat): (r: U64)
    requires 0 < k < 64
  {
    RotateLeftFits(x, k);
    Wrap64(x * Pow2(k)) + Shr(x, 64 - k)
  }

  /** The two halves a rotation by k moves past each other. */
  lemma RotateHalves(x: U64, k: nat) returns (high: nat, low: nat)
    requires 0 < k < 64
    ensures high == Shr(x, 64 - k) && high < Pow2(k) && low < Pow2(64 - k)
    ensures x == high * Pow2(64 - k) + low
    ensures low * Pow2(k) + Pow2(k) <= 0x1_0000_0000_0000_0000
    ensures high * Pow2(64 - k) + Pow2(64 - k) <= 0x1_0000_0000_0000_0000
  {
    var m, n := Pow2(k), Pow2(64 - k);
    Pow2At64();
    Pow2Product(k, 64 - k);
    high := Shr(x, 64 - k);
    low := ShrSplits(x, 64 - k);
    QuotientFits(high, low, m, n);
    MulStep(low, n, m);
    MulStep(high, m, n);
  }

  lemma QuotientFits(q: nat, r: nat, m: nat, n: nat)
    requires q * n + r < m * n
    ensures q < m
  {
    if m < q {
      MulStep(m, q, n);
    }
  }

  /** Moving the low half up leaves the high half as the overflow. */
  lemma WrapShifted(high: nat, low: nat, k: nat)
    requires 0 < k < 64 && low * Pow2(k) < 0x1_0000_0000_0000_0000
    ensures Wrap64((high * Pow2(64 - k) + low) * Pow2(k)) == low * Pow2(k)
  {
    var m, n := Pow2(k), Pow2(64 - k);
    Pow2At64();
    Pow2Product(k, 64 - k);
    ScaleSplit(high, low, m, n);
    WrapIs((high * n + low) * m, high, low * m);
  }

  lemma ScaleSplit(high: nat, low: nat, m: nat, n: nat)
    ensures (high * n + low) * m == high * (m * n) + low * m
  {
  }

  lemma RotateLeftFits(x: U64, k: nat)
    requires 0 < k < 64
    ensures Wrap64(x * Pow2(k)) + Shr(x, 64 - k) < 0x1_0000_0000_0000_0000
  {
    var high, low := RotateHalves(x, k);
    WrapShifted(high, low, k);
  }

  lemma RotateBack(x: U64, k: nat)
    requires 0 < k < 64
    ensures RotateLeft(RotateLeft(x, k), 64 - k) == x
  {
    var high, low := RotateHalves(x, k);
    WrapShifted(high, low, k);
    ShrIs(RotateLeft(x, k), k, low, high);
    WrapShifted(low, high, 64 - k);
  }

  /** x ^ (x >> k), the avalanche step of the final mix. */
  function XorShift(x: U64, k: nat): U64 {
    ShrShrinks(x, k);
    Xor64(x, Shr(x, k))
  }

  lemma {:induction false} ShrShrinks(x: nat, k: nat)
    ensures Shr(x, k) <= x
    decreases k
  {
    if k > 0 {
      ShrShrinks(x / 2, k - 1);
    }
  }

  /** Undoing an xor-shift of 22 bits or more: three shifted copies suffice. */
  function UnXorShift(y: U64, k: nat): U64 {
    ShrShrinks(y, k);
    ShrShrinks(y, 2 * k);
    Xor64(Xor64(y, Shr(y, k)), Shr(y, 2 * k))
  }

  lemma XorShiftBack(x: U64, k: nat)
    requires 22 <= k
    ensures UnXorShift(XorShift(x, k), k) == x
  {
    var a, b := Shr(x, k), Shr(x, 2 * k);
    var y := XorShift(x, k);
    ShrTwice(x, k, k);
    ShrTwice(x, 2 * k, k);
    ShrVanishes(x, 3 * k);
    ShrXor(x, a, k);
    assert Shr(y, k) == Xor(a, b);
    ShrXor(x, a, 2 * k);
    ShrTwice(x, k, 2 * k);
    assert Shr(y, 2 * k) == Xor(b, 0);
    XorZero(b);
    // (x ^ a) ^ (a ^ b) ^ b == x
    XorMiddle(x, a, b);
    XorCancel(x, b);
  }

  lemma UnXorShiftBack(y: U64, k: nat)
    requires 22 <= k
    ensures XorShift(UnXorShift(y, k), k) == y
  {
    var a, b := Shr(y, k), Shr(y, 2 * k);
    var x := UnXorShift(y, k);
    ShrTwice(y, k, k);
    ShrTwice(y, 2 * k, k);
    ShrVanishes(y, 3 * k);
    ShrXor(y, a, k);
    ShrXor(Xor(y, a), b, k);
    XorZero(Xor(a, b));
    assert Shr(x, k) == Xor(a, b);
    XorAssociates(Xor(y, a), b, Xor(a, b));
    XorCommutes(b, Xor(a, b));
    XorCancel(a, b);
    XorCancel(y, a);
  }

  lemma {:induction false} XorAssociates(x: nat, y: nat, z: nat)
    ensures Xor(Xor(x, y), z) == Xor(x, Xor(y, z))
    decreases x + y + z
  {
    if x + y + z > 0 {
      XorParts(x, y);
      XorParts(y, z);
      XorParts(Xor(x, y), z);
      XorParts(x, Xor(y, z));
      XorAssociates(x / 2, y / 2, z / 2);
      SameHalves(Xor(Xor(x, y), z), Xor(x, Xor(y, z)));
    }
  }

  lemma ShrVanishes(x: U64, k: nat)
    requires 64 <= k
    ensures Shr(x, k) == 0
  {
    Pow2At64();
    ShrSmall(x, 64);
    ShrTwice(x, 64, k - 64);
    ShrSmall(0, k - 64);
  }

  lemma {:induction false} XorZero(x: nat)
    ensures Xor(x, 0) == x
  {
    if x > 0 {
      XorZero(x / 2);
    }
  }

  lemma XorMiddle(x: nat, a: nat, b: nat)
    ensures Xor(Xor(x, a), Xor(a, b)) == Xor(x, b)
  {
    XorAssociates(x, a, Xor(a, b));
    XorCommutes(a, Xor(a, b));
    XorCommutes(a, b);
    XorCancel(b, a);
  }
}
