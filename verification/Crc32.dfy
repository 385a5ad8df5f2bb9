/** The incremental checksum of `common/CRC32.hpp`: the table, the byte loop over it, and the
    bit-serial register of section 3.2.9 of IEEE Std 802.3 they stand for. */
module Crc32 {
  import opened Bitwise

  /** The polynomial of the standard with its coefficients reflected: the highest power of a
      word is in its lowest bit. */
  const POLYNOMIAL: uint32 := 0xEDB88320

  const ONES: uint32 := 0xFFFF_FFFF

  /** One tick of the shift register. */
  function Step(c: uint32): uint32 {
    if c % 2 != 0 then Xor32(POLYNOMIAL, c / 2) else c / 2
  }

  function Steps(c: uint32, n: nat): uint32
    decreases n
  {
    if n == 0 then c else Steps(Step(c), n - 1)
  }

  // ----- the bit-serial register

  function Bit(b: bool): uint32 {
    if b then 1 else 0
  }

  function FeedBit(c: uint32, b: bool): uint32 {
    Step(Xor32(c, Bit(b)))
  }

  function FeedBits(c: uint32, bits: seq<bool>): uint32
    decreases |bits|
  {
    if bits == [] then c else FeedBits(FeedBit(c, bits[0]), bits[1..])
  }

  /** The lowest `n` bits of a word, in the order the register takes them in. */
  function WordBits(x: nat, n: nat): (bits: seq<bool>)
    ensures |bits| == n
    decreases n
  {
    if n == 0 then [] else [x % 2 != 0] + WordBits(x / 2, n - 1)
  }

  function MessageBits(m: seq<byte>): (bits: seq<bool>)
    ensures |bits| == 8 * |m|
  {
    if m == [] then [] else WordBits(m[0], 8) + MessageBits(m[1..])
  }

  /** The checksum of a message behind the checksum of the blocks before it. */
  function Checksum(initial: uint32, m: seq<byte>): uint32 {
    Xor32(FeedBits(Xor32(initial, ONES), MessageBits(m)), ONES)
  }

  // ----- the table driven loop

  function Table(): (t: seq<uint32>)
    ensures |t| == 256
    ensures forall i :: 0 <= i < 256 ==> t[i] == Steps(i, 8)
  {
    seq(256, i requires 0 <= i < 256 => Steps(i, 8))
  }

  function TableStep(c: uint32, b: byte): uint32 {
    Xor32(Table()[Xor32(c, b) % 256], c / 256)
  }

  method MakeCrc32Table() returns (table: array<uint32>)
    ensures fresh(table) && table[..] == Table()
  {
    table := new uint32[256];
    var i := 0;
    while i < 256
      invariant 0 <= i <= 256
      invariant table[..i] == Table()[..i]
    {
      var c: uint32 := i;
      ghost var entry := Table()[i];
      var j := 0;
      while j < 8
        invariant 0 <= j <= 8
        invariant Steps(c, 8 - j) == entry
      {
        assert Steps(c, 8 - j) == Steps(Step(c), 8 - (j + 1));
        c := if c % 2 != 0 then Xor32(POLYNOMIAL, c / 2) else c / 2;
        j := j + 1;
      }
      table[i] := c;
      i := i + 1;
    }
  }

  /** `data` may be null when `size` is zero, as the declaration allows. */
  method Update(table: array<uint32>, initial: uint32, data: array?<byte>, size: nat) returns (crc: uint32)
    requires table[..] == Table()
    requires size == 0 || (data != null && size <= data.Length)
    ensures var m := if size == 0 then [] else data[..size];
            crc == Checksum(initial, m) == 0xFFFF_FFFF - FeedBits(0xFFFF_FFFF - initial, MessageBits(m))
  {
    var c := Xor32(initial, ONES);
    ghost var m: seq<byte> := if size == 0 then [] else data[..size];
    var i := 0;
    while i < size
      invariant 0 <= i <= size
      invariant FeedBits(c, MessageBits(m[i..])) == FeedBits(Xor32(initial, ONES), MessageBits(m))
    {
      assert m[i..][1..] == m[i + 1..] && m[i..][0] == data[i];
      FeedByte(c, m[i..]);
      assert table[Xor32(c, data[i]) % 256] == table[..][Xor32(c, data[i]) % 256];
      c := Xor32(table[Xor32(c, data[i]) % 256], c / 256);
      i := i + 1;
    }
    assert m[size..] == [];
    ChecksumComplements(initial, m);
    return Xor32(c, ONES);
  }

  /** The register starts from the complement of the value given and ends in the complement of the
      checksum. */
  lemma ChecksumComplements(initial: uint32, m: seq<byte>)
    ensures Checksum(initial, m) == 0xFFFF_FFFF - FeedBits(0xFFFF_FFFF - initial, MessageBits(m))
  {
    Complement(initial);
    Complement(FeedBits(0xFFFF_FFFF - initial, MessageBits(m)));
  }

  lemma Complement(c: uint32)
    ensures Xor32(c, ONES) == 0xFFFF_FFFF - c
  {
    Pow2Values();
    XorAllOnes(c, 32);
  }

  // ----- the register is linear

  lemma StepLinear(a: uint32, b: uint32)
    ensures Step(Xor32(a, b)) == Xor32(Step(a), Step(b))
  {
    var p, x, y := POLYNOMIAL, a / 2, b / 2;
    XorHalves(a, b);
    if a % 2 != 0 && b % 2 != 0 {
      XorExchange(p, x, p, y);
      XorSelf(p);
      XorZero(Xor(x, y));
    } else if a % 2 != 0 {
      XorAssociates(p, x, y);
    } else if b % 2 != 0 {
      XorAssociates(x, p, y);
      XorCommutes(x, p);
      XorAssociates(p, x, y);
    }
  }

  lemma {:induction false} StepsLinear(a: uint32, b: uint32, n: nat)
    ensures Steps(Xor32(a, b), n) == Xor32(Steps(a, n), Steps(b, n))
    decreases n
  {
    if n > 0 {
      StepLinear(a, b);
      StepsLinear(Step(a), Step(b), n - 1);
    }
  }

  /** The word `x` splits in its lowest bit, which the tick consumes, and the rest of it. */
  lemma StepSplits(c: uint32, x: uint32)
    ensures Step(Xor32(c, x)) == Xor32(FeedBit(c, x % 2 != 0), x / 2)
  {
    var low: uint32, high: uint32 := x % 2, x - x % 2;
    assert Xor(low, high) == x by {
      XorHalves(low, high);
      XorZero(x / 2);
    }
    XorAssociates(c, low, high);
    StepLinear(Xor32(c, low), high);
  }

  /** Taking in a word bit by bit is adding the whole word first and ticking afterwards. */
  lemma {:induction false} FeedWord(c: uint32, x: uint32, n: nat)
    ensures Steps(Xor32(c, x), n) == Xor(FeedBits(c, WordBits(x, n)), Shift(x, n))
    decreases n
  {
    if n > 0 {
      StepSplits(c, x);
      FeedWord(FeedBit(c, x % 2 != 0), x / 2, n - 1);
      assert WordBits(x, n)[1..] == WordBits(x / 2, n - 1);
    }
  }

  // ----- the table driven step takes in eight bits

  lemma {:induction false} WordBitsDropHigh(x: nat, k: nat, n: nat)
    ensures WordBits(x + k * Pow2(n), n) == WordBits(x, n)
    decreases n
  {
    if n > 0 {
      var t := k * Pow2(n - 1);
      assert k * Pow2(n) == 2 * t;
      assert (x + 2 * t) / 2 == x / 2 + t;
      WordBitsDropHigh(x / 2, k, n - 1);
    }
  }

  /** What `n` ticks do to the low bits of a word; the high bits only move. */
  lemma TicksSplit(low: uint32, k: nat, n: nat)
    requires low < Pow2(n) && low + k * Pow2(n) < 0x1_0000_0000
    ensures Steps(low + k * Pow2(n), n) == Xor(Steps(low, n), Shift(low + k * Pow2(n), n))
  {
    hide Steps, WordBits, FeedBits, Xor, Shift;
    var x: uint32 := low + k * Pow2(n);
    FeedWord(0, x, n);
    FeedWord(0, low, n);
    XorZero(x);
    XorZero(low);
    XorZero(FeedBits(0, WordBits(low, n)));
    ShiftSmall(low, n);
    WordBitsDropHigh(low, k, n);
  }

  /** The table holds what eight ticks do to the low byte. As in `ShiftByte`, the eight is a
      parameter here and below, which keeps the solver from unfolding the ticks. */
  lemma TableStepTicks(x: uint32, n: nat)
    requires n == 8
    ensures Steps(x, n) == Xor(Steps(x % 256, n), x / 256)
  {
    Pow2Values();
    assert x == x % 256 + (x / 256) * Pow2(n);
    TicksSplit(x % 256, x / 256, n);
    ShiftByte(x, n);
  }

  /** The register keeps its high bytes, whatever byte comes in. */
  lemma HighBytes(c: uint32, b: byte, n: nat)
    requires n == 8
    ensures Xor(c, b) / 256 == c / 256
  {
    XorShift(c, b, n);
    ShiftByte(Xor(c, b), n);
    ShiftByte(c, n);
    ShiftByte(b, n);
    XorZero(c / 256);
  }

  /** One turn of the byte loop is eight ticks of the bit-serial register. */
  lemma TableStepIsBitSerial(c: uint32, b: byte, n: nat)
    requires n == 8
    ensures TableStep(c, b) == FeedBits(c, WordBits(b, n))
  {
    TableStepTicks(Xor32(c, b), n);
    HighBytes(c, b, n);
    FeedWord(c, b, n);
    ShiftByte(b, n);
    XorZero(FeedBits(c, WordBits(b, n)));
  }

  lemma {:induction false} FeedBitsAppend(c: uint32, a: seq<bool>, b: seq<bool>)
    ensures FeedBits(c, a + b) == FeedBits(FeedBits(c, a), b)
    decreases |a|
  {
    if a == [] {
      assert a + b == b;
    } else {
      assert (a + b)[1..] == a[1..] + b;
      FeedBitsAppend(FeedBit(c, a[0]), a[1..], b);
    }
  }

  lemma FeedByte(c: uint32, m: seq<byte>)
    requires m != []
    ensures FeedBits(c, MessageBits(m)) == FeedBits(TableStep(c, m[0]), MessageBits(m[1..]))
  {
    TableStepIsBitSerial(c, m[0], 8);
    FeedBitsAppend(c, WordBits(m[0], 8), MessageBits(m[1..]));
  }
}
