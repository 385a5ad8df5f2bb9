/** What the checksum of `common/CRC32.hpp` is good for: it may be computed block by block, it
    notices every burst of up to 32 bits, and it is the remainder of the polynomial division of
    section 3.2.9 of IEEE Std 802.3. */
module Crc32Properties {
  import opened Bitwise
  import opened Bytes
  import opened Crc32

  // ----- block by block

  lemma {:induction false} MessageBitsAppend(a: seq<byte>, b: seq<byte>)
    ensures MessageBits(a + b) == MessageBits(a) + MessageBits(b)
  {
    if a == [] {
      assert a + b == b;
    } else {
      assert (a + b)[1..] == a[1..] + b;
      MessageBitsAppend(a[1..], b);
    }
  }

  lemma ChecksumIncremental(initial: uint32, a: seq<byte>, b: seq<byte>)
    ensures Checksum(Checksum(initial, a), b) == Checksum(initial, a + b)
  {
    var c := FeedBits(Xor32(initial, ONES), MessageBits(a));
    XorCancels(c, ONES);
    FeedBitsAppend(Xor32(initial, ONES), MessageBits(a), MessageBits(b));
    MessageBitsAppend(a, b);
  }

  function ChecksumOfBlocks(initial: uint32, blocks: seq<seq<byte>>): uint32
    decreases |blocks|
  {
    if blocks == [] then initial else ChecksumOfBlocks(Checksum(initial, blocks[0]), blocks[1..])
  }

  /** However a message is cut into blocks, the last update returns the checksum of the message. */
  lemma {:induction false} ChecksumIgnoresBlocks(initial: uint32, blocks: seq<seq<byte>>)
    ensures ChecksumOfBlocks(initial, blocks) == Checksum(initial, Concat(blocks))
    decreases |blocks|
  {
    if blocks == [] {
      XorCancels(initial, ONES);
    } else {
      ChecksumIgnoresBlocks(Checksum(initial, blocks[0]), blocks[1..]);
      ChecksumIncremental(initial, blocks[0], Concat(blocks[1..]));
    }
  }

  // ----- bursts

  lemma StepInjective(a: uint32, b: uint32)
    requires Step(a) == Step(b)
    ensures a == b
  {
    Pow2Values();
    XorAbove(POLYNOMIAL, a / 2, 31);
    XorAbove(POLYNOMIAL, b / 2, 31);
    assert a % 2 == b % 2;
    if a % 2 != 0 {
      XorCommutes(POLYNOMIAL, a / 2);
      XorCommutes(POLYNOMIAL, b / 2);
      XorInjective(a / 2, b / 2, POLYNOMIAL);
    }
  }

  lemma {:induction false} StepsInjective(a: uint32, b: uint32, n: nat)
    requires Steps(a, n) == Steps(b, n)
    ensures a == b
    decreases n
  {
    if n > 0 {
      StepsInjective(Step(a), Step(b), n - 1);
      StepInjective(a, b);
    }
  }

  /** Bits that follow a difference never make up for it. */
  lemma {:induction false} FeedBitsInjective(a: uint32, b: uint32, bits: seq<bool>)
    requires FeedBits(a, bits) == FeedBits(b, bits)
    ensures a == b
    decreases |bits|
  {
    if bits != [] {
      FeedBitsInjective(FeedBit(a, bits[0]), FeedBit(b, bits[0]), bits[1..]);
      StepInjective(Xor32(a, Bit(bits[0])), Xor32(b, Bit(bits[0])));
      XorInjective(a, b, Bit(bits[0]));
    }
  }

  /** The word whose lowest bits are the given ones. */
  function Word(bits: seq<bool>): (x: nat)
    ensures x < Pow2(|bits|)
    ensures WordBits(x, |bits|) == bits
  {
    if bits == [] then 0
    else
      var high := Word(bits[1..]);
      assert (Bit(bits[0]) + 2 * high) / 2 == high;
      Bit(bits[0]) + 2 * high
  }

  lemma {:induction false} Pow2Monotone(m: nat, n: nat)
    requires m <= n
    ensures Pow2(m) <= Pow2(n)
  {
    if m < n {
      Pow2Monotone(m, n - 1);
    }
  }

  /** Up to 32 bits act on the register like one word added to it. */
  lemma FeedAsWord(c: uint32, bits: seq<bool>)
    requires |bits| <= 32
    ensures Word(bits) < 0x1_0000_0000
    ensures FeedBits(c, bits) == Steps(Xor32(c, Word(bits)), |bits|)
  {
    Pow2Values();
    Pow2Monotone(|bits|, 32);
    var x: uint32 := Word(bits);
    FeedWord(c, x, |bits|);
    ShiftSmall(x, |bits|);
    XorZero(FeedBits(c, bits));
  }

  lemma WindowInjective(c: uint32, a: seq<bool>, b: seq<bool>)
    requires |a| == |b| <= 32
    requires FeedBits(c, a) == FeedBits(c, b)
    ensures a == b
  {
    FeedAsWord(c, a);
    FeedAsWord(c, b);
    StepsInjective(Xor32(c, Word(a)), Xor32(c, Word(b)), |a|);
    XorCommutes(c, Word(a));
    XorCommutes(c, Word(b));
    XorInjective(Word(a), Word(b), c);
  }

  lemma BurstChangesRegister(c: uint32, before: seq<bool>, a: seq<bool>, b: seq<bool>, after: seq<bool>)
    requires |a| == |b| <= 32
    ensures FeedBits(c, before + a + after) == FeedBits(c, before + b + after) <==> a == b
  {
    var s := FeedBits(c, before);
    FeedBitsAppend(c, before + a, after);
    FeedBitsAppend(c, before, a);
    FeedBitsAppend(c, before + b, after);
    FeedBitsAppend(c, before, b);
    if FeedBits(c, before + a + after) == FeedBits(c, before + b + after) {
      FeedBitsInjective(FeedBits(s, a), FeedBits(s, b), after);
      WindowInjective(s, a, b);
    }
  }

  lemma {:induction false} WordBitsInjective(x: nat, y: nat, n: nat)
    requires x < Pow2(n) && y < Pow2(n) && WordBits(x, n) == WordBits(y, n)
    ensures x == y
  {
    if n > 0 {
      assert WordBits(x, n)[0] == WordBits(y, n)[0];
      assert WordBits(x, n)[1..] == WordBits(x / 2, n - 1);
      assert WordBits(y, n)[1..] == WordBits(y / 2, n - 1);
      WordBitsInjective(x / 2, y / 2, n - 1);
    }
  }

  lemma {:induction false} MessageBitsInjective(a: seq<byte>, b: seq<byte>)
    requires |a| == |b| && MessageBits(a) == MessageBits(b)
    ensures a == b
  {
    if a != [] {
      Pow2Values();
      assert MessageBits(a)[..8] == WordBits(a[0], 8) && MessageBits(a)[8..] == MessageBits(a[1..]);
      assert MessageBits(b)[..8] == WordBits(b[0], 8) && MessageBits(b)[8..] == MessageBits(b[1..]);
      WordBitsInjective(a[0], b[0], 8);
      MessageBitsInjective(a[1..], b[1..]);
    }
  }

  predicate DifferOnlyWithin(a: seq<bool>, b: seq<bool>, start: nat, length: nat) {
    && |a| == |b| && start + length <= |a|
    && a[..start] == b[..start]
    && a[start + length..] == b[start + length..]
  }

  lemma CutInThree(x: seq<bool>, start: nat, end: nat)
    requires start <= end <= |x|
    ensures x == x[..start] + x[start..end] + x[end..]
  {
  }

  lemma BitBurstDetected(c: uint32, x: seq<bool>, y: seq<bool>, start: nat, length: nat)
    requires length <= 32 && DifferOnlyWithin(x, y, start, length)
    ensures FeedBits(c, x) == FeedBits(c, y) <==> x == y
  {
    var end := start + length;
    CutInThree(x, start, end);
    CutInThree(y, start, end);
    BurstChangesRegister(c, x[..start], x[start..end], y[start..end], x[end..]);
  }

  /** Every burst of up to 32 bits, wherever it starts in a byte, changes the checksum. */
  lemma BurstDetected(initial: uint32, a: seq<byte>, b: seq<byte>, start: nat, length: nat)
    requires |a| == |b| && length <= 32
    requires DifferOnlyWithin(MessageBits(a), MessageBits(b), start, length)
    ensures Checksum(initial, a) == Checksum(initial, b) <==> a == b
  {
    var c := Xor32(initial, ONES);
    BitBurstDetected(c, MessageBits(a), MessageBits(b), start, length);
    if Checksum(initial, a) == Checksum(initial, b) {
      XorInjective(FeedBits(c, MessageBits(a)), FeedBits(c, MessageBits(b)), ONES);
      MessageBitsInjective(a, b);
    }
  }

  /** In bytes: a change inside four consecutive bytes never goes unnoticed. */
  lemma FourByteBurstDetected(initial: uint32, before: seq<byte>, a: seq<byte>, b: seq<byte>, after: seq<byte>)
    requires |a| == |b| <= 4
    ensures Checksum(initial, before + a + after) == Checksum(initial, before + b + after) <==> a == b
  {
    var x, y := before + a + after, before + b + after;
    MessageBitsAppend(before + a, after);
    MessageBitsAppend(before, a);
    MessageBitsAppend(before + b, after);
    MessageBitsAppend(before, b);
    BurstDetected(initial, x, y, 8 * |before|, 8 * |a|);
    assert x[|before|..|before| + |a|] == a && y[|before|..|before| + |a|] == b;
  }

  // ----- the remainder of a polynomial division

  // A polynomial over the field of two elements is the number whose bit `i` is the
  // coefficient of the power `i`: addition is exclusive or, and the product has no carries.

  /** The generator of the standard, with the power 32 the register leaves out. */
  const GENERATOR: nat := 0x1_04C1_1DB7

  function Product(a: nat, b: nat): nat
    decreases b
  {
    if b == 0 then 0 else Xor(2 * Product(a, b / 2), if b % 2 != 0 then a else 0)
  }

  /** The polynomial times the power `n` of the variable. */
  function Raised(p: nat, n: nat): nat {
    if n == 0 then p else 2 * Raised(p, n - 1)
  }

  /** The polynomial of a message: its first bit is the coefficient of the highest power. */
  function MessagePolynomial(bits: seq<bool>): nat
    decreases |bits|
  {
    if bits == [] then 0
    else 2 * MessagePolynomial(bits[..|bits| - 1]) + Bit(bits[|bits| - 1])
  }

  /** The polynomial of a register of `n` bits, whose lowest bit is the highest power. */
  function Reflected(c: nat, n: nat): (p: nat)
    ensures p < Pow2(n)
    decreases n
  {
    if n == 0 then 0
    else (if c % 2 != 0 then Pow2(n - 1) else 0) + Reflected(c / 2, n - 1)
  }

  function RegisterPolynomial(c: uint32): (p: nat)
    ensures p < Pow2(32)
  {
    Reflected(c, 32)
  }

  /** What the standard divides: the message with 32 zero bits behind it, and the content of the
      register in front of it added to its first bits. */
  function Dividend(c: uint32, bits: seq<bool>): nat {
    Xor(Raised(MessagePolynomial(bits), 32), Raised(RegisterPolynomial(c), |bits|))
  }

  ghost predicate IsRemainder(dividend: nat, r: nat) {
    r < Pow2(32) && exists q: nat :: dividend == Xor(Product(GENERATOR, q), r)
  }

  lemma {:induction false} RaisedXor(a: nat, b: nat, n: nat)
    ensures Raised(Xor(a, b), n) == Xor(Raised(a, n), Raised(b, n))
  {
    if n > 0 {
      RaisedXor(a, b, n - 1);
      XorDouble(Raised(a, n - 1), Raised(b, n - 1));
    }
  }

  lemma {:induction false} RaisedDouble(a: nat, n: nat)
    ensures Raised(2 * a, n) == 2 * Raised(a, n)
  {
    if n > 0 {
      RaisedDouble(a, n - 1);
    }
  }

  lemma {:induction false} RaisedIsPow2(n: nat)
    ensures Raised(1, n) == Pow2(n)
    ensures Raised(0, n) == 0
  {
    if n > 0 {
      RaisedIsPow2(n - 1);
    }
  }

  /** Where no bit is shared, exclusive or is a sum. */
  lemma {:induction false} XorDisjoint(b: nat, n: nat)
    requires b < Pow2(n)
    ensures Xor(Pow2(n), b) == Pow2(n) + b
  {
    if n > 0 {
      XorDisjoint(b / 2, n - 1);
      XorHalves(Pow2(n), b);
    } else {
      XorZero(1);
    }
  }

  lemma XorLowBit(a: nat, b: bool)
    ensures Xor(2 * a, Bit(b)) == 2 * a + Bit(b)
  {
    XorHalves(2 * a, Bit(b));
    XorZero(a);
  }

  function TopBit(c: nat, n: nat): nat {
    if c % 2 != 0 then Pow2(n) else 0
  }

  lemma ReflectedSplits(c: nat, n: nat)
    ensures Reflected(c, n + 1) == Xor(TopBit(c, n), Reflected(c / 2, n))
  {
    XorDisjoint(Reflected(c / 2, n), n);
    XorZero(Reflected(c / 2, n));
  }

  lemma TopBitXor(a: nat, b: nat, n: nat)
    ensures TopBit(Xor(a, b), n) == Xor(TopBit(a, n), TopBit(b, n))
  {
    XorHalves(a, b);
    XorSelf(Pow2(n));
    XorZero(Pow2(n));
  }

  lemma ReflectedXorStep(a: nat, b: nat, n: nat)
    requires Reflected(Xor(a, b) / 2, n) == Xor(Reflected(a / 2, n), Reflected(b / 2, n))
    ensures Reflected(Xor(a, b), n + 1) == Xor(Reflected(a, n + 1), Reflected(b, n + 1))
  {
    hide Xor;
    ReflectedSplits(a, n);
    ReflectedSplits(b, n);
    ReflectedSplits(Xor(a, b), n);
    TopBitXor(a, b, n);
    XorExchange(TopBit(a, n), Reflected(a / 2, n), TopBit(b, n), Reflected(b / 2, n));
  }

  lemma {:induction false} ReflectedXor(a: nat, b: nat, n: nat)
    ensures Reflected(Xor(a, b), n) == Xor(Reflected(a, n), Reflected(b, n))
    decreases n
  {
    hide Xor;
    XorZero(0);
    if n > 0 {
      ReflectedXor(a / 2, b / 2, n - 1);
      XorHalves(a, b);
      ReflectedXorStep(a, b, n - 1);
    }
  }

  /** A word with an unused highest bit loses nothing when it is read one power higher. */
  lemma {:induction false} ReflectedWider(d: nat, n: nat)
    requires d < Pow2(n)
    ensures Reflected(d, n + 1) == 2 * Reflected(d, n)
    decreases n
  {
    if n == 0 {
      assert Reflected(0, 1) == 0;
    } else {
      ReflectedWider(d / 2, n - 1);
    }
  }

  /** The value the generator takes in the register. */
  lemma ReflectedGenerator()
    ensures RegisterPolynomial(0xEDB88320) == 0x1_04C1_1DB7 - Pow2(32)
    ensures POLYNOMIAL == 0xEDB88320 && GENERATOR == 0x1_04C1_1DB7
  {
    Pow2Values();
    assert Reflected(0xE, 4) == 0x7;
    assert Reflected(0xED, 8) == 0xB7;
    assert Reflected(0xEDB, 12) == 0xDB7;
    assert Reflected(0xEDB8, 16) == 0x1DB7;
    assert Reflected(0xEDB88, 20) == 0x11DB7;
    assert Reflected(0xEDB883, 24) == 0xC11DB7;
    assert Reflected(0xEDB8832, 28) == 0x4C11DB7;
  }

  /** One tick multiplies by the variable and takes off the generator when a power 32 shows up. */
  lemma TickDivides(t: uint32)
    ensures 2 * RegisterPolynomial(t)
            == Xor(if t % 2 != 0 then GENERATOR else 0, RegisterPolynomial(Step(t)))
  {
    Pow2Values();
    var d := t / 2;
    ReflectedWider(d, 31);
    XorZero(RegisterPolynomial(d));
    if t % 2 != 0 {
      var g := RegisterPolynomial(POLYNOMIAL);
      ReflectedGenerator();
      ReflectedXor(POLYNOMIAL, d, 32);
      XorDisjoint(g, 32);
      XorAssociates(GENERATOR, g, RegisterPolynomial(d));
      XorCancels(Pow2(32), g);
      XorDisjoint(RegisterPolynomial(d), 32);
    }
  }

  lemma PolynomialAppend(bits: seq<bool>, b: bool)
    ensures MessagePolynomial(bits + [b]) == 2 * MessagePolynomial(bits) + Bit(b)
  {
    assert (bits + [b])[..|bits|] == bits;
  }

  lemma {:induction false} ReflectedBit(b: bool, n: nat)
    requires n > 0
    ensures Reflected(Bit(b), n) == if b then Pow2(n - 1) else 0
  {
    ReflectedZero(n - 1);
  }

  lemma {:induction false} ReflectedZero(n: nat)
    ensures Reflected(0, n) == 0
  {
    if n > 0 {
      ReflectedZero(n - 1);
    }
  }

  /** The next bit of the message, next to the register. */
  lemma BitJoinsRegister(s: uint32, b: bool)
    ensures Xor(2 * RegisterPolynomial(s), Raised(Bit(b), 32)) == 2 * RegisterPolynomial(Xor32(s, Bit(b)))
  {
    hide Xor, Reflected, Raised, Pow2;
    ReflectedXor(s, Bit(b), 32);
    ReflectedBit(b, 32);
    RaisedIsPow2(32);
    Pow2Values();
    XorDouble(RegisterPolynomial(s), Reflected(Bit(b), 32));
  }

  /** The bits taken in later multiply what is there by the variable. */
  lemma DividendAppend(c: uint32, bits: seq<bool>, b: bool)
    ensures Dividend(c, bits + [b]) == Xor(2 * Dividend(c, bits), Raised(Bit(b), 32))
  {
    hide Xor, Raised;
    var m, r := MessagePolynomial(bits), RegisterPolynomial(c);
    PolynomialAppend(bits, b);
    XorLowBit(m, b);
    RaisedXor(2 * m, Bit(b), 32);
    RaisedDouble(m, 32);
    RaisedSucc(r, |bits|);
    XorDouble(Raised(m, 32), Raised(r, |bits|));
    XorAssociates(2 * Raised(m, 32), Raised(Bit(b), 32), 2 * Raised(r, |bits|));
    XorCommutes(Raised(Bit(b), 32), 2 * Raised(r, |bits|));
    XorAssociates(2 * Raised(m, 32), 2 * Raised(r, |bits|), Raised(Bit(b), 32));
  }

  lemma RaisedSucc(p: nat, n: nat)
    ensures Raised(p, n + 1) == 2 * Raised(p, n)
  {
  }

  function LowTerm(a: nat): nat {
    if a % 2 != 0 then GENERATOR else 0
  }

  lemma ProductSplits(a: nat)
    ensures Product(GENERATOR, a) == Xor(2 * Product(GENERATOR, a / 2), LowTerm(a))
  {
    if a == 0 {
      assert Xor(0, 0) == 0;
    }
  }

  lemma ProductNextBit(q: nat, b: bool)
    ensures Product(GENERATOR, 2 * q + Bit(b)) == Xor(2 * Product(GENERATOR, q), if b then GENERATOR else 0)
  {
    hide Xor, Product;
    ProductSplits(2 * q + Bit(b));
    assert (2 * q + Bit(b)) / 2 == q;
  }

  lemma ProductZero()
    ensures Product(GENERATOR, 0) == 0
  {
  }

  /** One bit of the message is one row of the long division. */
  lemma DivisionStep(c: uint32, bits: seq<bool>, b: bool, q: nat)
    requires Dividend(c, bits) == Xor(Product(GENERATOR, q), RegisterPolynomial(FeedBits(c, bits)))
    ensures var s := FeedBits(c, bits);
            var next := 2 * q + Bit(Xor32(s, Bit(b)) % 2 != 0);
            Dividend(c, bits + [b]) == Xor(Product(GENERATOR, next), RegisterPolynomial(FeedBit(s, b)))
  {
    hide Xor, Reflected, Raised, Product;
    var s := FeedBits(c, bits);
    var t := Xor32(s, Bit(b));
    var p, r := Product(GENERATOR, q), RegisterPolynomial(s);
    var g := if t % 2 != 0 then GENERATOR else 0;
    DividendAppend(c, bits, b);
    XorDouble(p, r);
    XorAssociates(2 * p, 2 * r, Raised(Bit(b), 32));
    BitJoinsRegister(s, b);
    TickDivides(t);
    XorAssociates(2 * p, g, RegisterPolynomial(Step(t)));
    ProductNextBit(q, t % 2 != 0);
  }

  lemma EmptyDividend(c: uint32)
    ensures Dividend(c, []) == Xor(Product(GENERATOR, 0), RegisterPolynomial(c))
  {
    RaisedIsPow2(32);
    XorZero(RegisterPolynomial(c));
  }

  lemma {:induction false} RegisterDivides(c: uint32, bits: seq<bool>) returns (q: nat)
    ensures Dividend(c, bits) == Xor(Product(GENERATOR, q), RegisterPolynomial(FeedBits(c, bits)))
    decreases |bits|
  {
    hide Xor, Product, Dividend, RegisterPolynomial;
    if bits == [] {
      q := 0;
      EmptyDividend(c);
    } else {
      var init, b := bits[..|bits| - 1], bits[|bits| - 1];
      assert bits == init + [b];
      var p := RegisterDivides(c, init);
      var s := FeedBits(c, init);
      q := 2 * p + Bit(Xor32(s, Bit(b)) % 2 != 0);
      DivisionStep(c, init, b, p);
      FeedBitsAppend(c, init, [b]);
      assert FeedBits(s, [b]) == FeedBit(s, b);
    }
  }

  /** No multiple of the generator but zero fits in the register. */
  lemma {:induction false} MultipleIsLong(q: nat)
    requires q > 0
    ensures Product(GENERATOR, q) >= Pow2(32)
  {
    Pow2Values();
    if q == 1 {
      XorZero(GENERATOR);
    } else {
      MultipleIsLong(q / 2);
      XorAbove(2 * Product(GENERATOR, q / 2), if q % 2 != 0 then GENERATOR else 0, 33);
    }
  }

  lemma {:induction false} ProductDistributes(a: nat, b: nat)
    ensures Product(GENERATOR, Xor(a, b)) == Xor(Product(GENERATOR, a), Product(GENERATOR, b))
    decreases a + b
  {
    if a == 0 {
      XorZero(b);
      XorZero(Product(GENERATOR, b));
    } else if b == 0 {
      XorZero(a);
      XorZero(Product(GENERATOR, a));
    } else {
      ProductDistributes(a / 2, b / 2);
      XorHalves(a, b);
      ProductDistributesStep(a, b);
    }
  }

  lemma LowTermXor(a: nat, b: nat)
    ensures LowTerm(Xor(a, b)) == Xor(LowTerm(a), LowTerm(b))
  {
    XorHalves(a, b);
    XorSelf(GENERATOR);
    XorZero(GENERATOR);
  }

  lemma ProductDistributesStep(a: nat, b: nat)
    requires Product(GENERATOR, Xor(a, b) / 2) == Xor(Product(GENERATOR, a / 2), Product(GENERATOR, b / 2))
    ensures Product(GENERATOR, Xor(a, b)) == Xor(Product(GENERATOR, a), Product(GENERATOR, b))
  {
    hide Xor, Product;
    var x, y := Product(GENERATOR, a / 2), Product(GENERATOR, b / 2);
    ProductSplits(a);
    ProductSplits(b);
    ProductSplits(Xor(a, b));
    LowTermXor(a, b);
    XorDouble(x, y);
    XorExchange(2 * x, LowTerm(a), 2 * y, LowTerm(b));
  }

  lemma RemainderUnique(dividend: nat, r: nat, s: nat)
    requires IsRemainder(dividend, r) && IsRemainder(dividend, s)
    ensures r == s
  {
    hide Xor, Product;
    var p: nat :| dividend == Xor(Product(GENERATOR, p), r);
    var q: nat :| dividend == Xor(Product(GENERATOR, q), s);
    var x, y := Product(GENERATOR, p), Product(GENERATOR, q);
    XorExchange(x, r, y, s);
    XorSelf(dividend);
    assert Xor(Xor(x, y), Xor(r, s)) == 0;
    XorCancels(Xor(x, y), Xor(r, s));
    XorZero(Xor(r, s));
    ProductDistributes(p, q);
    XorBelow(r, s, 32);
    if Xor(p, q) > 0 {
      MultipleIsLong(Xor(p, q));
    } else {
      ProductZero();
    }
    XorCancels(r, s);
    XorZero(s);
  }

  /** The checksum, complemented again and read as a polynomial, is the remainder of the message
      divided by the generator, and the only one. */
  lemma ChecksumIsRemainder(initial: uint32, m: seq<byte>, r: nat)
    ensures IsRemainder(Dividend(0xFFFF_FFFF - initial, MessageBits(m)), r)
            <==> r == RegisterPolynomial(0xFFFF_FFFF - Checksum(initial, m))
  {
    Complement(initial);
    Complement(Checksum(initial, m));
    var c := Xor32(initial, ONES);
    var bits := MessageBits(m);
    var s := FeedBits(c, bits);
    XorCancels(s, ONES);
    var q := RegisterDivides(c, bits);
    assert IsRemainder(Dividend(c, bits), RegisterPolynomial(s));
    if IsRemainder(Dividend(c, bits), r) {
      RemainderUnique(Dividend(c, bits), r, RegisterPolynomial(s));
    }
  }
}
