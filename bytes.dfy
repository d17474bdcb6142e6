/**
 * Bytes, machine words and the two running 8-bit sums that both ends of the
 * serial link use as a frame checksum.
 */
module Bytes {

  datatype Option<T> = None | Some(value: T)

  /** One octet on the wire. */
  type Byte = b: int | 0 <= b < 256

  /** 2^32: the modulus of an Arduino `unsigned long`. */
  const WORD: int := 0x1_0000_0000

  /** An Arduino `unsigned long` (32 bits). */
  type U32 = x: int | 0 <= x < 0x1_0000_0000

  function Pow2(n: nat): (r: nat)
    ensures r >= 1
  {
    if n == 0 then 1 else 2 * Pow2(n - 1)
  }

  /** Bitwise OR of two non-negative integers, one bit at a time from the low end. */
  function Or(x: nat, y: nat): nat
    decreases x + y
  {
    if x == 0 then y
    else if y == 0 then x
    else 2 * Or(x / 2, y / 2) + (if x % 2 == 1 || y % 2 == 1 then 1 else 0)
  }

  /**
   * OR-ing a value shifted left by k bits into a value that fits in k bits
   * is addition: the bits do not overlap. This is why assembling an address
   * with `address |= byte << (8 * index)` is little-endian base-256.
   */
  lemma {:induction false} OrShifted(x: nat, b: nat, k: nat)
    requires x < Pow2(k)
    ensures Or(x, b * Pow2(k)) == x + b * Pow2(k)
  {
    var y := b * Pow2(k);
    if k == 0 {
      assert x == 0;
    } else if x == 0 || b == 0 {
      assert x == 0 || y == 0;
    } else {
      var p := Pow2(k - 1);
      assert Pow2(k) == 2 * p;
      assert y == 2 * (b * p);
      assert y / 2 == b * p && y % 2 == 0;
      assert y != 0;
      OrShifted(x / 2, b, k - 1);
      assert Or(x, y) == 2 * Or(x / 2, y / 2) + x % 2;
    }
  }

  /** `byte << (8 * index)`: a byte placed at address byte number `index`. */
  function Shifted(b: Byte, index: nat): nat
  {
    b * Pow2(8 * index)
  }

  /** 2^(n+8) = 256 * 2^n: one more address byte is a factor of 256. */
  lemma {:induction false} Pow2Bytes(n: nat)
    ensures Pow2(n + 8) == 256 * Pow2(n)
  {
    assert Pow2(n + 8) == 2 * Pow2(n + 7) == 4 * Pow2(n + 6) == 8 * Pow2(n + 5) == 16 * Pow2(n + 4);
    assert Pow2(n + 4) == 2 * Pow2(n + 3) == 4 * Pow2(n + 2) == 8 * Pow2(n + 1) == 16 * Pow2(n);
  }

  /** The nonlinear step of `AddressByte`, kept apart so that the solver sees it without the rest. */
  lemma MulBound(b: Byte, x: nat)
    ensures b * x <= 255 * x
  {
  }

  /**
   * Adding byte number `index` to an address that fits in `index` bytes is
   * OR-ing it in, and the result fits in `index + 1` bytes.
   */
  lemma AddressByte(address: nat, b: Byte, index: nat)
    requires address < Pow2(8 * index)
    ensures Or(address, Shifted(b, index)) == address + Shifted(b, index)
    ensures Or(address, Shifted(b, index)) < Pow2(8 * (index + 1))
  {
    var x := Pow2(8 * index);
    OrShifted(address, b, 8 * index);
    Pow2Bytes(8 * index);
    assert 8 * (index + 1) == 8 * index + 8;
    MulBound(b, x);
  }

  /** The pair of running sums: `first` over the bytes, `second` over the successive `first`s. */
  datatype Sums = Sums(first: Byte, second: Byte)

  const NoSums: Sums := Sums(0, 0)

  /** One checksum step: `first = (first + b) & 0xff; second = (second + first) & 0xff`. */
  function Add(s: Sums, b: Byte): Sums
  {
    var f := (s.first + b) % 256;
    Sums(f, (s.second + f) % 256)
  }

  /** The sums after folding `data` into `s`, oldest byte first. */
  function Accumulate(s: Sums, data: seq<Byte>): Sums
    decreases |data|
  {
    if data == [] then s else Accumulate(Add(s, data[0]), data[1..])
  }

  /** The checksum of `data`, starting from two zero sums. */
  function Checksum(data: seq<Byte>): Sums
  {
    Accumulate(NoSums, data)
  }

  lemma {:induction false} AccumulateAppend(s: Sums, xs: seq<Byte>, ys: seq<Byte>)
    ensures Accumulate(s, xs + ys) == Accumulate(Accumulate(s, xs), ys)
    decreases |xs|
  {
    if xs != [] {
      assert (xs + ys)[0] == xs[0];
      assert (xs + ys)[1..] == xs[1..] + ys;
      AccumulateAppend(Add(s, xs[0]), xs[1..], ys);
    } else {
      assert xs + ys == ys;
    }
  }

  lemma ChecksumSnoc(data: seq<Byte>, b: Byte)
    ensures Checksum(data + [b]) == Add(Checksum(data), b)
  {
    AccumulateAppend(NoSums, data, [b]);
    assert Accumulate(Checksum(data), [b]) == Accumulate(Add(Checksum(data), b), []);
  }

  /** The plain sum of the bytes. */
  function Sum(data: seq<Byte>): nat
  {
    if data == [] then 0 else Sum(data[..|data| - 1]) + data[|data| - 1]
  }

  /** The sum of the sums of all non-empty prefixes: what `second` adds up before reduction. */
  function PrefixSums(data: seq<Byte>): nat
  {
    if data == [] then 0 else PrefixSums(data[..|data| - 1]) + Sum(data)
  }

  /**
   * Closed form of the checksum: `first` is the byte sum and `second` the
   * sum of the prefix sums, both reduced modulo 256 (not 255, as the
   * Fletcher-16 checksum would).
   */
  lemma {:induction false} ChecksumClosedForm(data: seq<Byte>)
    ensures Checksum(data).first == Sum(data) % 256
    ensures Checksum(data).second == PrefixSums(data) % 256
  {
    if data != [] {
      var init, b := data[..|data| - 1], data[|data| - 1];
      assert data == init + [b];
      ChecksumClosedForm(init);
      ChecksumSnoc(init, b);
      var c := Checksum(init);
      assert Checksum(data).first == (c.first + b) % 256;
      ModAdd(Sum(init), b);
      assert Checksum(data).first == Sum(data) % 256;
      assert Checksum(data).second == (c.second + Checksum(data).first) % 256;
      ModAdd(PrefixSums(init), Sum(data) % 256);
      ModAdd(Sum(data), PrefixSums(init));
    }
  }

  /** Reducing one addend of a sum modulo 256 first does not change the sum modulo 256. */
  lemma ModAdd(a: int, b: int)
    ensures (a % 256 + b) % 256 == (a + b) % 256
  {
  }

  /** Replacing one byte changes the plain sum by the difference of the two bytes. */
  lemma {:induction false} SumUpdate(data: seq<Byte>, i: nat, x: Byte)
    requires i < |data|
    ensures Sum(data[i := x]) + data[i] == Sum(data) + x
    decreases |data|
  {
    var n := |data| - 1;
    if i == n {
      assert data[i := x][..n] == data[..n];
    } else {
      assert data[i := x][..n] == data[..n][i := x];
      SumUpdate(data[..n], i, x);
    }
  }

  /** Adding 1 to 255 changes a value modulo 256. */
  lemma ModShift(m: int, k: int)
    requires 0 < k < 256
    ensures (m + k) % 256 != m % 256
  {
  }

  /**
   * Checksum sensitivity: replacing any one byte of the data by a different
   * byte changes the first sum, so the frame's last byte no longer matches.
   */
  lemma ChangedByteChangesChecksum(data: seq<Byte>, i: nat, x: Byte)
    requires i < |data| && x != data[i]
    ensures Checksum(data[i := x]).first != Checksum(data).first
  {
    ChecksumClosedForm(data);
    ChecksumClosedForm(data[i := x]);
    SumUpdate(data, i, x);
    if x > data[i] {
      ModShift(Sum(data), x - data[i]);
    } else {
      ModShift(Sum(data[i := x]), data[i] - x);
    }
  }
}
