/**
  The table-driven CRC-32 of the archive writer (crates/nisaba-export/src/lib.rs), against
  the shift register that takes one message bit at a time. A `u32` is a number below 2^32:
  a shift divides, a mask takes a remainder, and exclusive or goes bit by bit.
 */
module Crc32 {
  import opened Binary

  const POLYNOMIAL: nat := 0xedb8_8320
  const ONES: nat := 0xffff_ffff
  const TOP: nat := 0x8000_0000

  function Xor(x: nat, y: nat): nat {
    if x == 0 && y == 0 then 0 else 2 * Xor(x / 2, y / 2) + if x % 2 == y % 2 then 0 else 1
  }

  // ------------------------------------------------------------------ the bit-serial definition

  function Flipped(p: nat, flip: bool, c: nat): nat { if flip then Xor(p, c) else p }

  /** The reflected shift register takes one message bit. */
  function Shift(crc: nat, bit: bool): nat {
    Flipped(crc / 2, (crc % 2 == 1) != bit, POLYNOMIAL)
  }

  function ShiftRight(w: nat, n: nat): nat {
    if n == 0 then w else ShiftRight(w, n - 1) / 2
  }

  /** Bit `n` of a byte, the least significant first. */
  function BitOf(b: byte, n: nat): bool { ShiftRight(b, n) % 2 == 1 }

  /** The message as bits: byte by byte, each from its least significant bit. */
  function MessageBits(data: Bytes): seq<bool> {
    seq(8 * |data|, k requires 0 <= k < 8 * |data| => BitOf(data[k / 8], k % 8))
  }

  /** The register after the first `k` bits. */
  function Register(bits: seq<bool>, k: nat): nat
    requires k <= |bits|
  {
    if k == 0 then ONES else Shift(Register(bits, k - 1), bits[k - 1])
  }

  /** CRC-32 by its definition. */
  function Crc(data: Bytes): nat { Xor(Register(MessageBits(data), 8 * |data|), ONES) }

  // ------------------------------------------------------------------ exclusive or

  lemma {:induction false} XorAssoc(x: nat, y: nat, z: nat)
    ensures Xor(Xor(x, y), z) == Xor(x, Xor(y, z))
  {
    if x != 0 || y != 0 || z != 0 {
      XorAssoc(x / 2, y / 2, z / 2);
      XorHalves(x, y);
      XorHalves(y, z);
      XorHalves(Xor(x, y), z);
      XorHalves(x, Xor(y, z));
    }
  }

  lemma XorHalves(x: nat, y: nat)
    ensures Xor(x, y) / 2 == Xor(x / 2, y / 2) && Xor(x, y) % 2 == if x % 2 == y % 2 then 0 else 1
  {
  }

  lemma {:induction false} XorCommutes(x: nat, y: nat)
    ensures Xor(x, y) == Xor(y, x)
  {
    if x != 0 || y != 0 { XorCommutes(x / 2, y / 2); }
  }

  lemma {:induction false} XorZero(x: nat)
    ensures Xor(x, 0) == x
  {
    if x != 0 { XorZero(x / 2); }
  }

  lemma {:induction false} XorSelf(x: nat)
    ensures Xor(x, x) == 0
  {
    if x != 0 { XorSelf(x / 2); }
  }

  /** The middle two of four terms change places. */
  lemma XorSwap(a: nat, b: nat, c: nat, d: nat)
    ensures Xor(Xor(a, b), Xor(c, d)) == Xor(Xor(a, c), Xor(b, d))
  {
    XorAssoc(a, b, Xor(c, d));
    XorAssoc(b, c, d);
    XorCommutes(b, c);
    XorAssoc(c, b, d);
    XorAssoc(a, c, Xor(b, d));
  }

  lemma XorCancels(x: nat, y: nat)
    ensures Xor(Xor(x, y), y) == x
  {
    XorAssoc(x, y, y);
    XorSelf(y);
    XorZero(x);
  }

  function Pow2(n: nat): nat { if n == 0 then 1 else 2 * Pow2(n - 1) }

  lemma Pow2Values()
    ensures Pow2(8) == 256 && Pow2(31) == TOP && Pow2(32) == ONES + 1
  {
    assert Pow2(4) == 16;
    assert Pow2(8) == 0x100;
    assert Pow2(12) == 0x1000;
    assert Pow2(16) == 0x1_0000;
    assert Pow2(20) == 0x10_0000;
    assert Pow2(24) == 0x100_0000;
    assert Pow2(28) == 0x1000_0000;
  }

  lemma {:induction false} XorBound(x: nat, y: nat, n: nat)
    requires x < Pow2(n) && y < Pow2(n)
    ensures Xor(x, y) < Pow2(n)
  {
    if n > 0 { XorBound(x / 2, y / 2, n - 1); }
  }

  lemma {:induction false} XorTop(x: nat, y: nat, n: nat)
    requires x < Pow2(n) <= y
    ensures Xor(x, y) >= Pow2(n)
  {
    if n > 0 {
      XorTop(x / 2, y / 2, n - 1);
    } else {
      XorCommutes(x, y);
      XorZero(y);
    }
  }

  // ------------------------------------------------------------------ eight bits at once

  function Step(crc: nat): nat { if crc % 2 != 0 then Xor(crc / 2, POLYNOMIAL) else crc / 2 }

  function Steps(crc: nat, n: nat): nat
    decreases n, crc
  {
    if n == 0 then crc else Step(Steps(crc, n - 1))
  }

  lemma XorBoth(p: nat, q: nat, c: nat)
    ensures Xor(Xor(p, c), Xor(q, c)) == Xor(p, q)
  {
    XorSwap(p, c, q, c);
    XorSelf(c);
    XorZero(Xor(p, q));
  }

  lemma XorLeft(p: nat, q: nat, c: nat)
    ensures Xor(Xor(p, c), q) == Xor(Xor(p, q), c)
  {
    XorAssoc(p, q, c);
    XorAssoc(p, c, q);
    XorCommutes(c, q);
  }

  lemma FlippedDifference(p: nat, q: nat, c: nat, a: bool, b: bool)
    ensures Xor(Flipped(p, a, c), Flipped(q, b, c)) == Flipped(Xor(p, q), a != b, c)
  {
    if a && b {
      XorBoth(p, q, c);
    } else if a {
      XorLeft(p, q, c);
    } else if b {
      XorAssoc(p, q, c);
    }
  }

  /** The difference of two registers evolves like a register fed the difference of the bits. */
  lemma ShiftDifference(x: nat, y: nat, a: bool, b: bool)
    ensures Xor(Shift(x, a), Shift(y, b)) == Shift(Xor(x, y), a != b)
  {
    XorHalves(x, y);
    FlippedDifference(x / 2, y / 2, POLYNOMIAL, (x % 2 == 1) != a, (y % 2 == 1) != b);
  }

  lemma {:induction false} StepsAreLinear(x: nat, y: nat, n: nat)
    ensures Steps(Xor(x, y), n) == Xor(Steps(x, n), Steps(y, n))
  {
    if n > 0 {
      StepsAreLinear(x, y, n - 1);
      ShiftDifference(Steps(x, n - 1), Steps(y, n - 1), false, false);
    }
  }

  /** Mixing a word into the register beforehand amounts to feeding its bits in turn. */
  lemma FeedOneBit(crc: nat, w: nat)
    ensures Step(Xor(crc, w)) == Xor(Shift(crc, w % 2 == 1), w / 2)
  {
    ShiftDifference(crc, w, w % 2 == 1, w % 2 == 1);
  }

  /** Feeding `n` bits of a byte found at `from`, with the rest of the byte still mixed in. */
  lemma {:induction false} FeedBits(bits: seq<bool>, from: nat, b: byte, n: nat)
    requires from + n <= |bits| && forall i: nat :: i < n ==> bits[from + i] == BitOf(b, i)
    ensures Steps(Xor(Register(bits, from), b), n) == Xor(Register(bits, from + n), ShiftRight(b, n))
  {
    if n > 0 {
      FeedBits(bits, from, b, n - 1);
      assert bits[from + (n - 1)] == BitOf(b, n - 1);
      FeedOneBit(Register(bits, from + n - 1), ShiftRight(b, n - 1));
    }
  }

  function ShiftLeft(x: nat, n: nat): nat
    decreases n
  {
    if n == 0 then x else 2 * ShiftLeft(x, n - 1)
  }

  lemma {:induction false} ShiftLeftFirst(x: nat, n: nat)
    requires n > 0
    ensures ShiftLeft(x, n) == ShiftLeft(2 * x, n - 1)
    decreases n
  {
    if n > 1 { ShiftLeftFirst(x, n - 1); }
  }

  lemma ShiftLeftByte(x: nat)
    ensures ShiftLeft(x, 8) == x * 256
  {
    assert ShiftLeft(x, 2) == x * 4;
    assert ShiftLeft(x, 4) == x * 16;
    assert ShiftLeft(x, 6) == x * 64;
  }

  /** A register with nothing in its `n` low bits only shifts for `n` steps. */
  lemma {:induction false} StepsOfHighBits(x: nat, n: nat)
    ensures Steps(ShiftLeft(x, n), n) == x
    decreases n
  {
    if n > 0 {
      ShiftLeftFirst(x, n);
      StepsOfHighBits(2 * x, n - 1);
    }
  }

  /** What a table of eight-step results is good for. */
  lemma OneLookup(x: nat)
    ensures Steps(x, 8) == Xor(x / 256, Steps(x % 256, 8))
  {
    var high, low := x / 256, x % 256;
    XorByte(high, low);
    ShiftLeftByte(high);
    StepsAreLinear(high * 256, low, 8);
    StepsOfHighBits(high, 8);
  }

  /** Numbers without a bit in common add up. */
  lemma {:induction false} XorDisjoint(high: nat, low: nat, n: nat)
    requires low < Pow2(n)
    ensures Xor(ShiftLeft(high, n), low) == ShiftLeft(high, n) + low
  {
    if n > 0 {
      XorDisjoint(high, low / 2, n - 1);
      XorEven(ShiftLeft(high, n - 1), low);
    } else {
      XorZero(high);
    }
  }

  lemma XorEven(h: nat, low: nat)
    ensures Xor(2 * h, low) == 2 * Xor(h, low / 2) + low % 2
  {
  }

  lemma XorByte(high: nat, low: nat)
    requires low < 256
    ensures Xor(high * 256, low) == high * 256 + low
  {
    Pow2Values();
    XorDisjoint(high, low, 8);
    ShiftLeftByte(high);
  }

  lemma {:induction false} ShiftRightBound(w: nat, n: nat, m: nat)
    requires n <= m && w < Pow2(m)
    ensures ShiftRight(w, n) < Pow2(m - n)
  {
    if n > 0 { ShiftRightBound(w, n - 1, m); }
  }

  lemma XorHigh(x: nat, low: nat)
    requires low < 256
    ensures Xor(x, low) / 256 == x / 256
  {
    Pow2Values();
    var high, rest := x / 256, x % 256;
    XorByte(high, rest);
    XorAssoc(high * 256, rest, low);
    XorBound(rest, low, 8);
    XorByte(high, Xor(rest, low));
  }

  /** The bits of byte `b` stand at `from`. */
  ghost predicate ByteAt(bits: seq<bool>, from: nat, b: byte) {
    from + 8 <= |bits| && forall i: nat :: i < 8 ==> bits[from + i] == BitOf(b, i)
  }

  lemma BytesInOrder(data: Bytes, k: nat)
    requires k < |data|
    ensures ByteAt(MessageBits(data), 8 * k, data[k])
  {
    forall n: nat | n < 8 ensures MessageBits(data)[8 * k + n] == BitOf(data[k], n) {
      assert (8 * k + n) / 8 == k && (8 * k + n) % 8 == n;
    }
  }

  lemma FeedEight(bits: seq<bool>, from: nat, b: byte)
    requires ByteAt(bits, from, b)
    ensures Register(bits, from + 8) == Steps(Xor(Register(bits, from), b), 8)
  {
    FeedBits(bits, from, b, 8);
    NothingLeft(b);
    XorZero(Register(bits, from + 8));
  }

  /** One byte of the message in one lookup. */
  lemma FeedByte(bits: seq<bool>, from: nat, b: byte)
    requires ByteAt(bits, from, b)
    ensures var crc := Register(bits, from);
            Register(bits, from + 8) == Xor(crc / 256, Steps(Xor(crc, b) % 256, 8))
  {
    FeedEight(bits, from, b);
    Lookup(Register(bits, from), b);
  }

  lemma Lookup(crc: nat, b: byte)
    ensures Steps(Xor(crc, b), 8) == Xor(crc / 256, Steps(Xor(crc, b) % 256, 8))
  {
    OneLookup(Xor(crc, b));
    XorHigh(crc, b);
  }

  lemma NothingLeft(b: byte)
    ensures ShiftRight(b, 8) == 0
  {
    Pow2Values();
    ShiftRightBound(b, 8, 8);
  }

  // ------------------------------------------------------------------ the table and its use

  method Crc32Table() returns (table: array<nat>)
    ensures fresh(table) && table.Length == 256
    ensures forall i: nat :: i < 256 ==> table[i] == Steps(i, 8)
  {
    table := new nat[256];
    for i: nat := 0 to 256
      invariant forall j: nat :: j < i ==> table[j] == Steps(j, 8)
    {
      var crc: nat := i;
      for n := 0 to 8
        invariant crc == Steps(i, n)
      {
        crc := if crc % 2 != 0 then Xor(crc / 2, POLYNOMIAL) else crc / 2;
      }
      table[i] := crc;
    }
  }

  /** The register after all the bytes, one lookup each. */
  method FeedBytes(data: Bytes, ghost bits: seq<bool>) returns (crc: nat)
    requires |bits| == 8 * |data| && forall k: nat :: k < |data| ==> ByteAt(bits, 8 * k, data[k])
    ensures crc == Register(bits, 8 * |data|)
  {
    var table := Crc32Table();
    crc := ONES;
    for k: nat := 0 to |data|
      invariant crc == Register(bits, 8 * k)
    {
      var index := Xor(crc, data[k]) % 256;
      var entry := table[index];
      assert ByteAt(bits, 8 * k, data[k]);
      assert Register(bits, 8 * k + 8) == Xor(crc / 256, entry) by { FeedByte(bits, 8 * k, data[k]); }
      crc := Xor(crc / 256, entry);
    }
  }

  /** The table-driven checksum is the bit-serial one. */
  method Crc32(data: Bytes) returns (r: nat)
    ensures r == Crc(data)
  {
    ghost var bits := MessageBits(data);
    forall k: nat | k < |data| ensures ByteAt(bits, 8 * k, data[k]) { BytesInOrder(data, k); }
    var crc := FeedBytes(data, bits);
    r := Xor(crc, ONES);
  }

  lemma {:induction false} RegisterBound(bits: seq<bool>, k: nat)
    requires k <= |bits|
    ensures Register(bits, k) < Pow2(32)
  {
    Pow2Values();
    if k > 0 {
      RegisterBound(bits, k - 1);
      XorBound(Register(bits, k - 1) / 2, POLYNOMIAL, 32);
    }
  }

  /** The checksum fits its field. */
  lemma CrcBound(data: Bytes)
    ensures Crc(data) < U32
  {
    Pow2Values();
    RegisterBound(MessageBits(data), 8 * |data|);
    XorBound(Register(MessageBits(data), 8 * |data|), ONES, 32);
  }

  // ------------------------------------------------------------------ what the checksum detects

  /** A lower bound on the difference, `n` bits after a lone difference went in. */
  function Floor(n: nat): nat { ShiftRight(TOP, n) }

  lemma {:induction false} FloorIsPositive(n: nat)
    requires n <= 31
    ensures Floor(n) == Pow2(31 - n) && Floor(n) >= 1
  {
    if n == 0 { Pow2Values(); } else { FloorIsPositive(n - 1); }
  }

  lemma ShiftKeepsFloor(d: nat, floor: nat, bit: bool)
    requires floor <= d < Pow2(32) && floor <= TOP
    ensures Shift(d, bit) >= floor / 2
    ensures (d % 2 == 1) != bit ==> Shift(d, bit) >= TOP
  {
    Pow2Values();
    XorTop(d / 2, POLYNOMIAL, 31);
  }

  ghost predicate SameOutside(d: seq<bool>, e: seq<bool>, from: nat, to: nat) {
    |d| == |e| && forall k: nat :: k < |d| && !(from <= k < to) ==> d[k] == e[k]
  }

  lemma {:induction false} SameBefore(d: seq<bool>, e: seq<bool>, k: nat)
    requires |d| == |e| && k <= |d|
    requires forall i: nat :: i < k ==> d[i] == e[i]
    ensures Register(d, k) == Register(e, k)
  {
    if k > 0 { SameBefore(d, e, k - 1); }
  }

  /** How far apart the registers are after `k` bits. */
  ghost function Apart(d: seq<bool>, e: seq<bool>, k: nat): nat
    requires |d| == |e| && k <= |d|
  {
    Xor(Register(d, k), Register(e, k))
  }

  lemma ApartStep(d: seq<bool>, e: seq<bool>, k: nat)
    requires |d| == |e| && k < |d|
    ensures Apart(d, e, k) < Pow2(32)
    ensures Apart(d, e, k + 1) == Shift(Apart(d, e, k), d[k] != e[k])
  {
    RegisterBound(d, k);
    RegisterBound(e, k);
    XorBound(Register(d, k), Register(e, k), 32);
    ShiftDifference(Register(d, k), Register(e, k), d[k], e[k]);
  }

  lemma NotZero(apart: nat)
    requires 1 <= apart < Pow2(32)
    ensures Shift(apart, false) >= 1
  {
    ShiftKeepsFloor(apart, 1, false);
  }

  /** Once apart, registers fed the same bits stay apart. */
  lemma {:induction false} StayApart(d: seq<bool>, e: seq<bool>, from: nat, k: nat)
    requires |d| == |e| && from <= k <= |d|
    requires forall i: nat :: from <= i < k ==> d[i] == e[i]
    requires Apart(d, e, from) >= 1
    ensures Apart(d, e, k) >= 1
  {
    if from < k {
      StayApart(d, e, from, k - 1);
      ApartStep(d, e, k - 1);
      NotZero(Apart(d, e, k - 1));
    }
  }

  /** For 32 bits from the first difference on the registers cannot meet again. */
  lemma {:induction false} CannotMeetYet(d: seq<bool>, e: seq<bool>, first: nat, n: nat)
    requires |d| == |e| && first + 1 + n <= |d| && n <= 31
    requires Register(d, first) == Register(e, first) && d[first] != e[first]
    ensures Apart(d, e, first + 1 + n) >= Floor(n)
  {
    ApartStep(d, e, first + n);
    if n == 0 {
      XorSelf(Register(d, first));
      LoneBit();
    } else {
      CannotMeetYet(d, e, first, n - 1);
      FloorStep(Apart(d, e, first + n), d[first + n] != e[first + n], n);
    }
  }

  lemma LoneBit()
    ensures Shift(0, true) >= Floor(0)
  {
    Pow2Values();
    ShiftKeepsFloor(0, 0, true);
  }

  lemma FloorStep(apart: nat, bit: bool, n: nat)
    requires n > 0 && Floor(n - 1) <= apart < Pow2(32)
    ensures Shift(apart, bit) >= Floor(n)
  {
    FloorIsBelowTop(n - 1);
    ShiftKeepsFloor(apart, Floor(n - 1), bit);
  }

  lemma {:induction false} FloorIsBelowTop(n: nat)
    ensures Floor(n) <= TOP
  {
    if n > 0 { FloorIsBelowTop(n - 1); }
  }

  lemma FirstDifference(d: seq<bool>, e: seq<bool>, at: nat) returns (first: nat)
    requires |d| == |e| && at < |d| && d[at] != e[at]
    ensures first <= at && d[first] != e[first]
    ensures forall i: nat :: i < first ==> d[i] == e[i]
  {
    first := 0;
    while d[first] == e[first]
      invariant first <= at && forall i: nat :: i < first ==> d[i] == e[i]
      decreases at - first
    {
      first := first + 1;
    }
  }

  lemma BitsDetected(d: seq<bool>, e: seq<bool>, from: nat, at: nat)
    requires SameOutside(d, e, from, from + 32)
    requires at < |d| && d[at] != e[at]
    ensures Apart(d, e, |d|) >= 1
  {
    var end := if from + 32 <= |d| then from + 32 else |d|;
    var first := FirstDifference(d, e, at);
    SameBefore(d, e, first);
    CannotMeetYet(d, e, first, end - first - 1);
    FloorIsPositive(end - first - 1);
    StayApart(d, e, end, |d|);
  }

  /** Every corruption confined to 32 consecutive bits, wherever it lies, changes the checksum. */
  lemma BurstIsDetected(d: Bytes, e: Bytes, from: nat, at: nat)
    requires SameOutside(MessageBits(d), MessageBits(e), from, from + 32)
    requires at < 8 * |d| && MessageBits(d)[at] != MessageBits(e)[at]
    ensures Crc(d) != Crc(e)
  {
    BitsDetected(MessageBits(d), MessageBits(e), from, at);
    var x, y := Register(MessageBits(d), 8 * |d|), Register(MessageBits(e), 8 * |d|);
    XorSelf(x);
    XorCancels(x, ONES);
    XorCancels(y, ONES);
  }
}
