/**
  UTF-8: the encoder every byte format of the repository relies on, the strict decoder of
  `TextDecoder("utf-8", { fatal: true })`, and the proof that each inverts the other.
 */
module Utf8 {
  import opened Wrappers
  import opened Binary

  /** Six payload bits in a continuation byte. */
  function Cont(v: nat): byte { 0x80 + v % 64 }

  function EncodeScalar(v: nat): Bytes
    requires v < 0x110000
  {
    if v < 0x80 then [v]
    else if v < 0x800 then [0xC0 + v / 64, Cont(v)]
    else if v < 0x10000 then [0xE0 + v / 64 / 64, Cont(v / 64), Cont(v)]
    else [0xF0 + v / 64 / 64 / 64, Cont(v / 64 / 64), Cont(v / 64), Cont(v)]
  }

  function EncodeChar(c: char): Bytes { EncodeScalar(c as int) }

  predicate IsContinuation(b: int) { 0x80 <= b < 0xC0 }

  predicate IsScalar(v: int) { 0 <= v < 0xD800 || 0xE000 <= v < 0x110000 }

  /** A value extended by the six bits of a continuation byte. */
  function Extend(v: int, b: int): int { v * 64 + (b - 0x80) }

  /** The first scalar and its length; none if the bytes are ill-formed, over-long or a surrogate. */
  function DecodeScalar(b: Bytes): (r: Option<(int, nat)>)
    ensures r.Some? ==> IsScalar(r.value.0) && 1 <= r.value.1 <= |b|
  {
    if b == [] then None
    else if b[0] < 0x80 then Some((b[0], 1))
    else if 0xC2 <= b[0] < 0xE0 then Decode2(b)
    else if 0xE0 <= b[0] < 0xF0 then Decode3(b)
    else if 0xF0 <= b[0] < 0xF5 then Decode4(b)
    else None
  }

  function Decode2(b: Bytes): (r: Option<(int, nat)>)
    requires |b| >= 1 && 0xC2 <= b[0] < 0xE0
    ensures r.Some? ==> IsScalar(r.value.0) && r.value.1 == 2 <= |b|
  {
    if |b| >= 2 && IsContinuation(b[1]) then Some((Extend(b[0] - 0xC0, b[1]), 2)) else None
  }

  function Decode3(b: Bytes): (r: Option<(int, nat)>)
    requires |b| >= 1 && 0xE0 <= b[0] < 0xF0
    ensures r.Some? ==> IsScalar(r.value.0) && r.value.1 == 3 <= |b|
  {
    if |b| >= 3 && IsContinuation(b[1]) && IsContinuation(b[2]) then
      var v := Extend(Extend(b[0] - 0xE0, b[1]), b[2]);
      if v >= 0x800 && IsScalar(v) then Some((v, 3)) else None
    else None
  }

  function Decode4(b: Bytes): (r: Option<(int, nat)>)
    requires |b| >= 1 && 0xF0 <= b[0] < 0xF5
    ensures r.Some? ==> IsScalar(r.value.0) && r.value.1 == 4 <= |b|
  {
    if |b| >= 4 && IsContinuation(b[1]) && IsContinuation(b[2]) && IsContinuation(b[3]) then
      var v := Extend(Extend(Extend(b[0] - 0xF0, b[1]), b[2]), b[3]);
      if v >= 0x10000 && IsScalar(v) then Some((v, 4)) else None
    else None
  }

  function Encode(s: string): Bytes {
    if s == [] then [] else EncodeChar(s[0]) + Encode(s[1..])
  }

  function Decode(b: Bytes): Option<string> {
    if b == [] then Some([])
    else
      match DecodeScalar(b)
      case None => None
      case Some((v, n)) =>
        match Decode(b[n..])
        case None => None
        case Some(s) => Some([v as char] + s)
  }

  lemma ExtendCont(v: nat)
    ensures Extend(v / 64, Cont(v)) == v && IsContinuation(Cont(v))
  {
  }

  lemma ContExtend(v: nat, b: int)
    requires IsContinuation(b)
    ensures Extend(v, b) / 64 == v && Cont(Extend(v, b)) == b
  {
  }

  lemma DecodeEncodeScalar(v: nat, rest: Bytes)
    requires IsScalar(v)
    ensures DecodeScalar(EncodeScalar(v) + rest) == Some((v, |EncodeScalar(v)|))
  {
    ExtendCont(v);
    ExtendCont(v / 64);
    ExtendCont(v / 64 / 64);
    var b := EncodeScalar(v) + rest;
    if v >= 0x10000 {
      assert |b| >= 4 && b[0] == 0xF0 + v / 64 / 64 / 64 && b[3] == Cont(v);
    } else if v >= 0x800 {
      assert |b| >= 3 && b[0] == 0xE0 + v / 64 / 64 && b[2] == Cont(v);
    }
  }

  lemma EncodeDecodeScalar(b: Bytes)
    requires DecodeScalar(b).Some?
    ensures var (v, n) := DecodeScalar(b).value; EncodeScalar(v) == b[..n]
  {
    var (v, n) := DecodeScalar(b).value;
    if n == 2 {
      ContExtend(b[0] - 0xC0, b[1]);
    } else if n == 3 {
      ContExtend(b[0] - 0xE0, b[1]);
      ContExtend(Extend(b[0] - 0xE0, b[1]), b[2]);
    } else if n == 4 {
      ContExtend(b[0] - 0xF0, b[1]);
      ContExtend(Extend(b[0] - 0xF0, b[1]), b[2]);
      ContExtend(Extend(Extend(b[0] - 0xF0, b[1]), b[2]), b[3]);
    }
  }

  lemma {:induction false} DecodeEncode(s: string)
    ensures Decode(Encode(s)) == Some(s)
  {
    if s != [] {
      var head, tail := EncodeChar(s[0]), Encode(s[1..]);
      DecodeEncodeScalar(s[0] as int, tail);
      DecodeEncode(s[1..]);
      assert (head + tail)[|head|..] == tail;
      assert [s[0]] + s[1..] == s;
    }
  }

  lemma {:induction false} EncodeDecode(b: Bytes)
    requires Decode(b).Some?
    ensures Encode(Decode(b).value) == b
  {
    if b != [] {
      var (v, n) := DecodeScalar(b).value;
      EncodeDecodeScalar(b);
      EncodeDecode(b[n..]);
      EncodeCons(v as char, Decode(b[n..]).value, b, n);
    }
  }

  lemma EncodeCons(c: char, s: string, b: Bytes, n: nat)
    requires n <= |b| && EncodeChar(c) == b[..n] && Encode(s) == b[n..]
    ensures Encode([c] + s) == b
  {
    assert ([c] + s)[1..] == s;
    assert b == b[..n] + b[n..];
  }
}
