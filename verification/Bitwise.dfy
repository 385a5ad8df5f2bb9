/** Bit operations on non-negative numbers. A word is a number below a power of two: `x >> 1` is
    `x / 2`, `x & 1` is `x % 2`, and `x & 0xFF` is `x % 256`. */
module Bitwise {

  type byte = x: int | 0 <= x < 0x100
  type uint32 = x: int | 0 <= x < 0x1_0000_0000

  function Pow2(n: nat): (p: nat)
    ensures p > 0
  {
    if n == 0 then 1 else 2 * Pow2(n - 1)
  }

  lemma Pow2Values()
    ensures Pow2(8) == 0x100
    ensures Pow2(31) == 0x8000_0000
    ensures Pow2(32) == 0x1_0000_0000
    ensures Pow2(33) == 0x2_0000_0000
  {
    assert Pow2(8) == 0x100;
    assert Pow2(16) == 0x1_0000;
    assert Pow2(24) == 0x100_0000;
    assert Pow2(31) == 0x8000_0000;
  }

  /** `a ^ b` */
  function Xor(a: nat, b: nat): nat {
    if a == 0 && b == 0 then 0 else (if a % 2 == b % 2 then 0 else 1) + 2 * Xor(a / 2, b / 2)
  }

  lemma XorHalves(a: nat, b: nat)
    ensures Xor(a, b) % 2 == if a % 2 == b % 2 then 0 else 1
    ensures Xor(a, b) / 2 == Xor(a / 2, b / 2)
  {
  }

  lemma {:induction false} XorZero(a: nat)
    ensures Xor(a, 0) == a == Xor(0, a)
  {
    if a != 0 {
      XorZero(a / 2);
    }
  }

  lemma {:induction false} XorSelf(a: nat)
    ensures Xor(a, a) == 0
  {
    if a != 0 {
      XorSelf(a / 2);
    }
  }

  lemma {:induction false} XorCommutes(a: nat, b: nat)
    ensures Xor(a, b) == Xor(b, a)
  {
    if a != 0 || b != 0 {
      XorCommutes(a / 2, b / 2);
    }
  }

  lemma SameHalves(x: nat, y: nat)
    requires x % 2 == y % 2 && x / 2 == y / 2
    ensures x == y
  {
  }

  lemma {:induction false} XorAssociates(a: nat, b: nat, c: nat)
    ensures Xor(Xor(a, b), c) == Xor(a, Xor(b, c))
    decreases a + b + c
  {
    if a != 0 || b != 0 || c != 0 {
      XorAssociates(a / 2, b / 2, c / 2);
      XorHalves(a, b);
      XorHalves(b, c);
      XorHalves(Xor(a, b), c);
      XorHalves(a, Xor(b, c));
      SameHalves(Xor(Xor(a, b), c), Xor(a, Xor(b, c)));
    }
  }

  /** Exclusive or is its own inverse. */
  lemma XorCancels(a: nat, b: nat)
    ensures Xor(Xor(a, b), b) == a
    ensures Xor(b, Xor(b, a)) == a
  {
    XorAssociates(a, b, b);
    XorAssociates(b, b, a);
    XorSelf(b);
    XorZero(a);
  }

  lemma XorInjective(a: nat, b: nat, c: nat)
    requires Xor(a, c) == Xor(b, c)
    ensures a == b
  {
    XorCancels(a, c);
    XorCancels(b, c);
  }

  /** Two sums of two, regrouped. */
  lemma XorExchange(a: nat, b: nat, c: nat, d: nat)
    ensures Xor(Xor(a, b), Xor(c, d)) == Xor(Xor(a, c), Xor(b, d))
  {
    XorAssociates(a, b, Xor(c, d));
    XorAssociates(b, c, d);
    XorCommutes(b, c);
    XorAssociates(c, b, d);
    XorAssociates(a, c, Xor(b, d));
  }

  lemma XorDouble(a: nat, b: nat)
    ensures Xor(2 * a, 2 * b) == 2 * Xor(a, b)
  {
    XorHalves(2 * a, 2 * b);
    assert 2 * a / 2 == a && 2 * b / 2 == b;
  }

  lemma {:induction false} XorBelow(a: nat, b: nat, n: nat)
    requires a < Pow2(n) && b < Pow2(n)
    ensures Xor(a, b) < Pow2(n)
  {
    if n > 0 {
      XorBelow(a / 2, b / 2, n - 1);
    }
  }

  /** A number above a power of two stays above it when a smaller number is added. */
  lemma {:induction false} XorAbove(a: nat, b: nat, n: nat)
    requires b < Pow2(n) <= a
    ensures Xor(a, b) >= Pow2(n)
  {
    if n > 0 {
      XorAbove(a / 2, b / 2, n - 1);
    } else {
      XorZero(a);
    }
  }

  lemma {:induction false} XorAllOnes(c: nat, n: nat)
    requires c < Pow2(n)
    ensures Xor(c, Pow2(n) - 1) == Pow2(n) - 1 - c
  {
    if n > 0 {
      XorAllOnes(c / 2, n - 1);
      XorHalves(c, Pow2(n) - 1);
    }
  }

  function Xor32(a: uint32, b: uint32): (r: uint32)
    ensures r == Xor(a, b)
  {
    Pow2Values();
    XorBelow(a, b, 32);
    Xor(a, b)
  }

  /** `x >> n` */
  function Shift(x: nat, n: nat): nat {
    if n == 0 then x else Shift(x / 2, n - 1)
  }

  lemma {:induction false} XorShift(a: nat, b: nat, n: nat)
    ensures Shift(Xor(a, b), n) == Xor(Shift(a, n), Shift(b, n))
  {
    if n > 0 {
      XorHalves(a, b);
      XorShift(a / 2, b / 2, n - 1);
    }
  }

  lemma {:induction false} ShiftSmall(x: nat, n: nat)
    requires x < Pow2(n)
    ensures Shift(x, n) == 0
  {
    if n > 0 {
      ShiftSmall(x / 2, n - 1);
    }
  }

  lemma ShiftTwice(x: nat, n: nat)
    requires n >= 2
    ensures Shift(x, n) == Shift(x / 4, n - 2)
  {
    assert Shift(x, n) == Shift(x / 2, n - 1) == Shift(x / 2 / 2, n - 2);
  }

  /** `x >> 8`; the number of bits is a parameter to keep it from being unfolded bit by bit. */
  lemma ShiftByte(x: nat, n: nat)
    requires n == 8
    ensures Shift(x, n) == x / 256
  {
    ShiftTwice(x, n);
    ShiftTwice(x / 4, n - 2);
    ShiftTwice(x / 16, n - 4);
    ShiftTwice(x / 64, n - 6);
    assert Shift(x / 256, n - 8) == x / 256;
  }
}
