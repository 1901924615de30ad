/** Bytes, and fixed-width integers as bytes in either order. */
module Binary {
  type byte = x: int | 0 <= x < 256

  type Bytes = seq<byte>

  const U16: int := 0x1_0000
  const U32: int := 0x1_0000_0000
  const U64: int := 0x1_0000_0000_0000_0000

  /** The `n` low bytes of `v`, most significant first. */
  function BigEndian(v: nat, n: nat): (r: Bytes)
    ensures |r| == n
  {
    if n == 0 then [] else BigEndian(v / 256, n - 1) + [v % 256]
  }

  /** The number `n` bytes spell, most significant first. */
  function FromBigEndian(bytes: Bytes): nat {
    if bytes == [] then 0
    else FromBigEndian(bytes[..|bytes| - 1]) * 256 + bytes[|bytes| - 1]
  }

  function Power256(n: nat): nat {
    if n == 0 then 1 else 256 * Power256(n - 1)
  }

  lemma {:induction false} BigEndianRoundTrip(v: nat, n: nat)
    requires v < Power256(n)
    ensures FromBigEndian(BigEndian(v, n)) == v
  {
    if n > 0 {
      var r := BigEndian(v, n);
      BigEndianRoundTrip(v / 256, n - 1);
      assert r[..|r| - 1] == BigEndian(v / 256, n - 1) && r[|r| - 1] == v % 256;
    }
  }

  lemma {:induction false} FromBigEndianBound(bytes: Bytes)
    ensures FromBigEndian(bytes) < Power256(|bytes|)
  {
    if bytes != [] { FromBigEndianBound(bytes[..|bytes| - 1]); }
  }

  lemma {:induction false} ToBigEndianRoundTrip(bytes: Bytes)
    ensures BigEndian(FromBigEndian(bytes), |bytes|) == bytes
  {
    if bytes != [] {
      ToBigEndianRoundTrip(bytes[..|bytes| - 1]);
      assert bytes == bytes[..|bytes| - 1] + [bytes[|bytes| - 1]];
    }
  }

  /** Writing `n` bytes keeps the value modulo 256 to the power `n`. */
  lemma {:induction false} LowBytes(v: nat, n: nat)
    ensures Power256(n) > 0 && BigEndian(v, n) == BigEndian(v % Power256(n), n)
  {
    if n > 0 {
      var p := Power256(n - 1);
      LowBytes(v / 256, n - 1);
      assert v % (256 * p) == v / 256 % p * 256 + v % 256 by { SplitMod(v, p); }
    }
  }

  lemma SplitMod(v: nat, p: nat)
    requires p > 0
    ensures v % (256 * p) == v / 256 % p * 256 + v % 256
  {
    var q, r := v / 256 / p, v / 256 % p;
    assert v / 256 == q * p + r;
    var s := r * 256 + v % 256;
    assert v == q * (256 * p) + s;
    assert 0 <= s < 256 * p;
    DivModUnique(v, 256 * p, q, s);
  }

  lemma DivModUnique(v: nat, m: nat, q: nat, s: nat)
    requires v == q * m + s && s < m
    ensures v / m == q && v % m == s
  {
    var d := v / m - q;
    assert d * m == s - v % m;
    assert d >= 1 ==> d * m >= m;
    assert d <= -1 ==> -d * m >= m;
  }

  lemma Powers()
    ensures Power256(1) == 256 && Power256(2) == U16 && Power256(4) == U32 && Power256(8) == U64
  {
    assert Power256(3) == 256 * U16;
    assert Power256(5) == 256 * U32 && Power256(6) == 256 * 256 * U32;
    assert Power256(7) == 256 * 256 * 256 * U32;
  }

  /** The `n` low bytes of `v`, least significant first. */
  function LittleEndian(v: nat, n: nat): (r: Bytes)
    ensures |r| == n
  {
    if n == 0 then [] else [v % 256] + LittleEndian(v / 256, n - 1)
  }

  function FromLittleEndian(bytes: Bytes): nat {
    if bytes == [] then 0 else bytes[0] + 256 * FromLittleEndian(bytes[1..])
  }

  lemma {:induction false} LittleEndianRoundTrip(v: nat, n: nat)
    requires v < Power256(n)
    ensures FromLittleEndian(LittleEndian(v, n)) == v
  {
    if n > 0 {
      assert LittleEndian(v, n)[1..] == LittleEndian(v / 256, n - 1);
      LittleEndianRoundTrip(v / 256, n - 1);
    }
  }
}
