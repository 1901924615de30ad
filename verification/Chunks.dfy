/** Byte strings laid end to end, and where each of them is found again. */
module Chunks {
  import opened Binary

  /** The bytes `c` stand at position `p` of `b`. */
  predicate At(b: Bytes, p: nat, c: Bytes) {
    p + |c| <= |b| && b[p..p + |c|] == c
  }

  function LengthTo(parts: seq<Bytes>, k: nat): nat
    requires k <= |parts|
  {
    if k == 0 then 0 else LengthTo(parts, k - 1) + |parts[k - 1]|
  }

  function ConcatTo(parts: seq<Bytes>, k: nat): Bytes
    requires k <= |parts|
  {
    if k == 0 then [] else ConcatTo(parts, k - 1) + parts[k - 1]
  }

  function Concat(parts: seq<Bytes>): Bytes { ConcatTo(parts, |parts|) }

  lemma {:induction false} ConcatLength(parts: seq<Bytes>, k: nat)
    requires k <= |parts|
    ensures |ConcatTo(parts, k)| == LengthTo(parts, k)
  {
    if k > 0 { ConcatLength(parts, k - 1); }
  }

  /** Part `j` stands where the parts before it end. */
  lemma {:induction false} PartAt(parts: seq<Bytes>, j: nat, k: nat)
    requires j < k <= |parts|
    ensures At(ConcatTo(parts, k), LengthTo(parts, j), parts[j])
  {
    ConcatLength(parts, k - 1);
    var front, last := ConcatTo(parts, k - 1), parts[k - 1];
    if j == k - 1 {
      AtEnd(front, last);
    } else {
      PartAt(parts, j, k - 1);
      AtStays(front, last, LengthTo(parts, j), parts[j]);
    }
  }

  lemma AtEnd(front: Bytes, last: Bytes)
    ensures At(front + last, |front|, last)
  {
  }

  lemma AtStays(b: Bytes, more: Bytes, p: nat, c: Bytes)
    requires At(b, p, c)
    ensures At(b + more, p, c)
  {
    assert (b + more)[p..p + |c|] == b[p..p + |c|];
  }

  /** What stands in a part stands in the whole. */
  lemma AtInside(b: Bytes, p: nat, c: Bytes, q: nat, d: Bytes)
    requires At(b, p, c) && At(c, q, d)
    ensures At(b, p + q, d)
  {
    forall i | 0 <= i < |d| ensures b[p + q..p + q + |d|][i] == d[i] {
      assert d[i] == c[q..q + |d|][i] == c[q + i];
      assert c[q + i] == b[p..p + |c|][q + i];
    }
  }

  lemma PartStands(b: Bytes, p: nat, parts: seq<Bytes>, k: nat)
    requires k < |parts| && At(b, p, Concat(parts))
    ensures At(b, p + LengthTo(parts, k), parts[k])
  {
    PartAt(parts, k, |parts|);
    AtInside(b, p, Concat(parts), LengthTo(parts, k), parts[k]);
  }

  // ------------------------------------------------------------------ fixed-width fields

  /** The fields of a record, each in as many bytes as the shape says. */
  function FieldParts(values: seq<nat>, shape: seq<nat>): (r: seq<Bytes>)
    requires |values| == |shape|
    ensures |r| == |shape|
  {
    seq(|shape|, k requires 0 <= k < |shape| => LittleEndian(values[k], shape[k]))
  }

  function Fields(values: seq<nat>, shape: seq<nat>): Bytes
    requires |values| == |shape|
  {
    Concat(FieldParts(values, shape))
  }

  predicate FieldsFit(values: seq<nat>, shape: seq<nat>) {
    |values| == |shape| && forall k :: 0 <= k < |shape| ==> values[k] < Power256(shape[k])
  }

  function WidthTo(shape: seq<nat>, k: nat): nat
    requires k <= |shape|
  {
    if k == 0 then 0 else WidthTo(shape, k - 1) + shape[k - 1]
  }

  function Width(shape: seq<nat>): nat { WidthTo(shape, |shape|) }

  function FieldAt(b: Bytes, p: nat, width: nat): nat {
    if p + width <= |b| then FromLittleEndian(b[p..p + width]) else 0
  }

  lemma {:induction false} WidthIsLength(values: seq<nat>, shape: seq<nat>, k: nat)
    requires |values| == |shape| && k <= |shape|
    ensures LengthTo(FieldParts(values, shape), k) == WidthTo(shape, k)
  {
    if k > 0 { WidthIsLength(values, shape, k - 1); }
  }

  lemma FieldsLength(values: seq<nat>, shape: seq<nat>)
    requires |values| == |shape|
    ensures |Fields(values, shape)| == Width(shape)
  {
    WidthIsLength(values, shape, |shape|);
    ConcatLength(FieldParts(values, shape), |shape|);
  }

  /** Every field is read back from wherever the record stands. */
  lemma FieldReadBack(b: Bytes, p: nat, values: seq<nat>, shape: seq<nat>, k: nat, offset: nat)
    requires FieldsFit(values, shape) && At(b, p, Fields(values, shape))
    requires k < |shape| && offset == WidthTo(shape, k)
    ensures FieldAt(b, p + offset, shape[k]) == values[k]
  {
    FieldStands(b, p, values, shape, k);
    NumberBack(b, p + offset, values[k], shape[k]);
  }

  lemma FieldStands(b: Bytes, p: nat, values: seq<nat>, shape: seq<nat>, k: nat)
    requires |values| == |shape| && k < |shape| && At(b, p, Fields(values, shape))
    ensures At(b, p + WidthTo(shape, k), LittleEndian(values[k], shape[k]))
  {
    var parts, part := FieldParts(values, shape), LittleEndian(values[k], shape[k]);
    assert parts[k] == part;
    assert LengthTo(parts, k) == WidthTo(shape, k) by { WidthIsLength(values, shape, k); }
    PartStands(b, p, parts, k);
  }

  lemma NumberBack(b: Bytes, p: nat, v: nat, width: nat)
    requires At(b, p, LittleEndian(v, width)) && v < Power256(width)
    ensures FieldAt(b, p, width) == v
  {
    LittleEndianRoundTrip(v, width);
  }
}
