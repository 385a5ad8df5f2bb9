/** Fixed width fields the way `memcpy` stores them on the machines the programs run on:
    the lowest byte first. */
module Bytes {
  import opened Bitwise

  function Bound(n: nat): (b: nat)
    ensures b > 0
  {
    if n == 0 then 1 else 256 * Bound(n - 1)
  }

  function Stored(value: nat, n: nat): (field: seq<byte>)
    ensures |field| == n
    decreases n
  {
    if n == 0 then [] else [value % 256] + Stored(value / 256, n - 1)
  }

  function Loaded(field: seq<byte>): (value: nat)
    ensures value < Bound(|field|)
  {
    if field == [] then 0 else field[0] + 256 * Loaded(field[1..])
  }

  /** The four lowest bytes of a number, the lowest first. */
  function LowFirst(value: nat): seq<byte> {
    [value % 0x100, value / 0x100 % 0x100, value / 0x1_0000 % 0x100, value / 0x100_0000 % 0x100]
  }

  lemma StoredOnce(value: nat, n: nat)
    requires n > 0
    ensures Stored(value, n) == [value % 0x100] + Stored(value / 0x100, n - 1)
  {
  }

  lemma StoredBehind(value: nat, n: nat)
    requires n >= 4
    ensures Stored(value, n) == LowFirst(value) + Stored(value / 0x1_0000_0000, n - 4)
  {
    hide Stored;
    StoredOnce(value, n);
    StoredOnce(value / 0x100, n - 1);
    StoredOnce(value / 0x1_0000, n - 2);
    StoredOnce(value / 0x100_0000, n - 3);
    assert value / 0x100 / 0x100 == value / 0x1_0000 && value / 0x1_0000 / 0x100 == value / 0x100_0000;
    assert value / 0x100_0000 / 0x100 == value / 0x1_0000_0000;
  }

  lemma StoredNone(value: nat)
    ensures Stored(value, 0) == []
  {
  }

  lemma StoredFour(value: nat)
    ensures Stored(value, 4) == LowFirst(value)
  {
    hide Stored;
    StoredBehind(value, 4);
    StoredNone(value / 0x1_0000_0000);
  }

  lemma StoredEight(value: nat)
    ensures Stored(value, 8) == LowFirst(value) + LowFirst(value / 0x1_0000_0000)
  {
    hide Stored;
    StoredBehind(value, 8);
    StoredFour(value / 0x1_0000_0000);
  }

  lemma {:induction false} LoadedStored(value: nat, n: nat)
    requires value < Bound(n)
    ensures Loaded(Stored(value, n)) == value
  {
    if n > 0 {
      LoadedStored(value / 256, n - 1);
      assert Stored(value, n)[1..] == Stored(value / 256, n - 1);
    }
  }

  lemma {:induction false} StoredLoaded(field: seq<byte>)
    ensures Stored(Loaded(field), |field|) == field
  {
    if field != [] {
      StoredLoaded(field[1..]);
      assert Loaded(field) / 256 == Loaded(field[1..]);
    }
  }

  lemma Bounds()
    ensures Bound(4) == 0x1_0000_0000
    ensures Bound(8) == 0x1_0000_0000_0000_0000
  {
    assert Bound(4) == 0x1_0000_0000;
  }

  function Concat(parts: seq<seq<byte>>): seq<byte> {
    if parts == [] then [] else parts[0] + Concat(parts[1..])
  }

  lemma {:induction false} ConcatAppend(a: seq<seq<byte>>, b: seq<seq<byte>>)
    ensures Concat(a + b) == Concat(a) + Concat(b)
  {
    if a == [] {
      assert a + b == b;
    } else {
      assert (a + b)[1..] == a[1..] + b;
      ConcatAppend(a[1..], b);
    }
  }
}
