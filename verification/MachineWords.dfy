/** The fixed-width unsigned integers of the C source, with their wrap-around. */
module MachineWords {
  const TWO_32: int := 0x1_0000_0000
  const TWO_64: int := 0x1_0000_0000_0000_0000

  type uint8 = x: int | 0 <= x < 0x100
  type uint16 = x: int | 0 <= x < 0x1_0000
  type uint32 = x: int | 0 <= x < TWO_32
  type uint64 = x: int | 0 <= x < TWO_64

  /** Conversion of a wider unsigned integer to 32 bits. */
  function Wrap(n: nat): uint32 { n % TWO_32 }

  function Add(x: uint32, y: uint32): uint32 {
    if x + y < TWO_32 then x + y else x + y - TWO_32
  }

  function Sub(x: uint32, y: uint32): uint32 {
    if y <= x then x - y else x - y + TWO_32
  }

  function ShiftLeft(x: uint32, k: nat): uint32
    decreases k
  {
    if k == 0 then x else ShiftLeft(Add(x, x), k - 1)
  }

  function ShiftRight(x: uint32, k: nat): uint32
    decreases k
  {
    if k == 0 then x else ShiftRight(x / 2, k - 1)
  }

  /** Exclusive or, bit by bit. */
  function XorBits(x: nat, y: nat): nat
    decreases x + y
  {
    if x == 0 && y == 0 then 0 else 2 * XorBits(x / 2, y / 2) + (x + y) % 2
  }

  /** Inclusive or, bit by bit. */
  function OrBits(x: nat, y: nat): nat
    decreases x + y
  {
    if x == 0 && y == 0 then 0 else 2 * OrBits(x / 2, y / 2) + (if x % 2 == 1 then 1 else y % 2)
  }

  function Xor(x: uint32, y: uint32): uint32 {
    BitsBelowTwo32(x, y);
    XorBits(x, y)
  }

  function Or(x: uint32, y: uint32): uint32 {
    BitsBelowTwo32(x, y);
    OrBits(x, y)
  }

  function Pow2(n: nat): nat {
    if n == 0 then 1 else 2 * Pow2(n - 1)
  }

  /** The bit operations stay within the width of their operands. */
  lemma {:induction false} BitsBelow(x: nat, y: nat, n: nat)
    requires x < Pow2(n) && y < Pow2(n)
    ensures XorBits(x, y) < Pow2(n)
    ensures OrBits(x, y) < Pow2(n)
  {
    if n > 0 && x + y > 0 {
      BitsBelow(x / 2, y / 2, n - 1);
    }
  }

  lemma BitsBelowTwo32(x: uint32, y: uint32)
    ensures XorBits(x, y) < TWO_32
    ensures OrBits(x, y) < TWO_32
  {
    PowersOfTwo();
    BitsBelow(x, y, 32);
  }

  lemma Pow2OfByte(n: nat)
    ensures Pow2(n + 8) == 0x100 * Pow2(n)
  {
    assert Pow2(n + 2) == 4 * Pow2(n);
    assert Pow2(n + 4) == 4 * Pow2(n + 2);
    assert Pow2(n + 6) == 4 * Pow2(n + 4);
  }

  lemma WrapAdd(m: nat, n: nat)
    ensures Wrap(m + n) == Add(Wrap(m), Wrap(n))
  {
    var q, r := m / TWO_32, n / TWO_32;
    assert m + n == TWO_32 * (q + r) + (Wrap(m) + Wrap(n));
    if Wrap(m) + Wrap(n) < TWO_32 {
      WrapUnique(m + n, q + r, Wrap(m) + Wrap(n));
    } else {
      WrapUnique(m + n, q + r + 1, Wrap(m) + Wrap(n) - TWO_32);
    }
  }

  lemma WrapUnique(n: nat, q: nat, r: int)
    requires n == TWO_32 * q + r && 0 <= r < TWO_32
    ensures Wrap(n) == r
  {}

  lemma ShiftLeftTwo(n: nat)
    ensures ShiftLeft(Wrap(n), 2) == Wrap(4 * n)
  {
    WrapAdd(n, n);
    WrapAdd(2 * n, 2 * n);
    var x := Wrap(n);
    assert ShiftLeft(x, 2) == ShiftLeft(Add(x, x), 1) == Add(Add(x, x), Add(x, x));
  }

  lemma AddAdd(x: uint32, y: uint32, z: uint32)
    requires y + z < TWO_32
    ensures Add(Add(x, y), z) == Add(x, y + z)
  {}

  lemma AddZero(x: uint32)
    ensures Add(x, 0) == x
  {}

  lemma AddSub(x: uint32, y: uint32)
    ensures Add(Sub(x, y), y) == x
    ensures Sub(Add(x, y), y) == x
  {}

  lemma {:induction false} XorXorBits(x: nat, y: nat)
    ensures XorBits(XorBits(x, y), y) == x
    decreases x + y
  {
    if x + y > 0 {
      XorXorBits(x / 2, y / 2);
      ParityTwice(XorBits(x / 2, y / 2), x, y);
    }
  }

  lemma ParityTwice(q: nat, x: nat, y: nat)
    ensures (2 * q + (x + y) % 2) / 2 == q
    ensures (2 * q + (x + y) % 2 + y) % 2 == x % 2
  {}

  lemma XorXor(x: uint32, y: uint32)
    ensures Xor(Xor(x, y), y) == x
  {
    XorXorBits(x, y);
  }

  // -------------------------------------------------------- bit operations as arithmetic

  lemma PowStep(n: nat, k: nat)
    requires k > 0
    ensures n * Pow2(k) == 2 * n * Pow2(k - 1) == 2 * (n * Pow2(k - 1))
  {}

  lemma Halves(x: nat, a: nat, m: nat)
    ensures (x * (2 * m) + a) / 2 == x * m + a / 2 && (x * (2 * m) + a) % 2 == a % 2
  {
    assert x * (2 * m) == 2 * (x * m);
  }

  /** Shifting right divides. */
  lemma {:induction false} ShiftRightIs(q: nat, r: nat, k: nat)
    requires r < Pow2(k) && q * Pow2(k) + r < TWO_32
    ensures ShiftRight(q * Pow2(k) + r, k) == q
  {
    if k > 0 {
      hide Pow2;
      PowStep(1, k);
      Halves(q, r, Pow2(k - 1));
      ShiftRightIs(q, r / 2, k - 1);
    } else {
      assert Pow2(0) == 1;
    }
  }

  lemma BelowProduct(a: nat, m: nat, b: nat, n: nat)
    requires a < m && b < n
    ensures a * n + b < m * n
  {
    assert a * n + n == (a + 1) * n <= m * n;
  }

  /** Shifting left multiplies, and drops what does not fit. */
  lemma {:induction false} ShiftLeftIs(n: nat, k: nat)
    ensures ShiftLeft(Wrap(n), k) == Wrap(n * Pow2(k))
    decreases k
  {
    if k > 0 {
      hide Wrap, Add, Pow2;
      WrapAdd(n, n);
      ShiftLeftIs(2 * n, k - 1);
      PowStep(n, k);
    }
  }

  lemma {:induction false} OrNothing(x: nat)
    ensures OrBits(x, 0) == x
  {
    if x > 0 { OrNothing(x / 2); }
  }

  lemma {:induction false} OrConcat(high: nat, low: nat, k: nat)
    requires low < Pow2(k)
    ensures OrBits(high * Pow2(k), low) == high * Pow2(k) + low
    decreases k
  {
    if k == 0 {
      OrNothing(high);
    } else {
      var x := high * Pow2(k);
      assert x == 2 * (high * Pow2(k - 1));
      OrConcat(high, low / 2, k - 1);
    }
  }

  lemma XorStep(x: nat, y: nat)
    ensures XorBits(x, y) == 2 * XorBits(x / 2, y / 2) + (x + y) % 2
  {}

  lemma {:induction false} XorSplit(x: nat, a: nat, y: nat, b: nat, k: nat)
    requires a < Pow2(k) && b < Pow2(k)
    ensures XorBits(x * Pow2(k) + a, y * Pow2(k) + b) == XorBits(x, y) * Pow2(k) + XorBits(a, b)
    decreases k, 1
  {
    if k == 0 {
      assert XorBits(0, 0) == 0 && a == b == 0;
    } else {
      XorSplitStep(x, a, y, b, k);
    }
  }

  lemma {:induction false} XorSplitStep(x: nat, a: nat, y: nat, b: nat, k: nat)
    requires k > 0 && a < Pow2(k) && b < Pow2(k)
    ensures XorBits(x * Pow2(k) + a, y * Pow2(k) + b) == XorBits(x, y) * Pow2(k) + XorBits(a, b)
    decreases k, 0
  {
    hide XorBits, Pow2;
    PowStep(1, k);
    var m, u, v := Pow2(k - 1), x * Pow2(k) + a, y * Pow2(k) + b;
    XorSplit(x, a / 2, y, b / 2, k - 1);
    Halves(x, a, m);
    Halves(y, b, m);
    XorStep(u, v);
    XorStep(a, b);
    SumParity(u, v, a, b);
    PowStep(XorBits(x, y), k);
  }

  lemma SumParity(u: nat, v: nat, a: nat, b: nat)
    requires u % 2 == a % 2 && v % 2 == b % 2
    ensures (u + v) % 2 == (a + b) % 2
  {}

  lemma PowersOfTwo()
    ensures Pow2(32) == TWO_32
  {
    Pow2OfByte(0);
    Pow2OfByte(8);
    Pow2OfByte(16);
    Pow2OfByte(24);
  }

  lemma Dropped(top: nat, rest: nat, q: nat, p: nat)
    requires p * q == TWO_32 && rest * p < TWO_32
    ensures Wrap((top * q + rest) * p) == rest * p
  {
    assert (top * q + rest) * p == top * (p * q) + rest * p;
    WrapUnique((top * q + rest) * p, top, rest * p);
  }

  lemma {:induction false} Pow2Sum(m: nat, n: nat)
    ensures Pow2(m + n) == Pow2(m) * Pow2(n)
  {
    if m > 0 {
      Pow2Sum(m - 1, n);
      PowStep(1, m);
      PowStep(1, m + n);
      hide Pow2;
      assert (2 * Pow2(m - 1)) * Pow2(n) == 2 * (Pow2(m - 1) * Pow2(n));
    }
  }
}
