/**
  Character positions, half-open ranges and range marks
  (crates/nisaba-core/src/position.rs, crates/nisaba-core/src/mark.rs).

  A text is a sequence of Unicode scalar values, which is what every position counts.
  Positions are `u32` in the source, so they carry that bound here; indices into a text
  are `usize` there and `nat` here.
 */
module Marks {
  import opened Arithmetic
  import opened Wrappers

  const U32_MAX: int := 0xffff_ffff

  type Position = p: int | 0 <= p <= U32_MAX

  /** `u32::try_from(n).unwrap_or(u32::MAX)`. */
  function SaturatingU32(n: nat): Position {
    if n > U32_MAX then U32_MAX else n
  }

  datatype TextRange = TextRange(start: Position, end: Position) {
    predicate IsEmpty() { start >= end }

    predicate IsWellOrdered() { start <= end }

    predicate Covers(i: int) { start <= i < end }

    function Intersect(other: TextRange): Option<TextRange> {
      var s := Max(start, other.start);
      var e := Min(end, other.end);
      if s < e then Some(TextRange(s, e)) else None
    }
  }

  datatype MarkKind = Insert | Delete | Comment | Secret {
    predicate IsChange() { Insert? || Delete? }
  }

  datatype Mark = Mark(
    id: nat,
    range: TextRange,
    kind: MarkKind,
    author: string,
    timestamp: nat,
    note: Option<string>)

  /** Marks keyed by their own id; the source keeps them in a `BTreeMap<MarkId, Mark>`. */
  type MarkSet = m: map<nat, Mark> | forall id <- m :: m[id].id == id

  // ------------------------------------------------------------------ iteration order

  predicate IsLeast(x: nat, s: set<nat>) {
    x in s && forall y :: y in s ==> x <= y
  }

  lemma LeastExists(s: set<nat>)
    requires s != {}
    ensures exists x :: IsLeast(x, s)
  {
    var z :| z in s;
    if smaller :| smaller in s && smaller < z {
      var rest := s - {z};
      assert smaller in rest;
      LeastExists(rest);
      var w :| IsLeast(w, rest);
      assert w <= smaller;
      assert forall y :: y in s ==> y == z || y in rest;
      assert IsLeast(w, s);
    } else {
      assert IsLeast(z, s);
    }
  }

  function Least(s: set<nat>): (x: nat)
    requires s != {}
    ensures x in s && IsLeast(x, s)
  {
    LeastExists(s);
    var x :| x in s && IsLeast(x, s);
    x
  }

  /** The marks in iteration order, which is increasing id order. */
  function InOrder(marks: MarkSet): seq<Mark>
    decreases |marks|
  {
    if marks == map[] then []
    else
      var id := Least(marks.Keys);
      assert marks.Keys - {id} < marks.Keys;
      [marks[id]] + InOrder(marks - {id})
  }

  /** Every listed mark is in the set. */
  lemma {:induction false} InOrderAt(marks: MarkSet, i: nat)
    requires i < |InOrder(marks)|
    ensures var m := InOrder(marks)[i]; m.id in marks && marks[m.id] == m
    decreases |marks|
  {
    var id := Least(marks.Keys);
    assert marks.Keys - {id} < marks.Keys;
    if i > 0 { InOrderAt(marks - {id}, i - 1); }
  }

  /** Every mark of the set is listed. */
  lemma {:induction false} InOrderHas(marks: MarkSet, id: nat) returns (i: nat)
    requires id in marks
    ensures i < |InOrder(marks)| && InOrder(marks)[i] == marks[id]
    decreases |marks|
  {
    var first := Least(marks.Keys);
    assert marks.Keys - {first} < marks.Keys;
    if id == first {
      i := 0;
    } else {
      i := InOrderHas(marks - {first}, id);
      i := i + 1;
    }
  }

  /** Ids are listed in increasing order, so no mark is listed twice. */
  lemma {:induction false} InOrderIncreasing(marks: MarkSet, i: nat, j: nat)
    requires i < j < |InOrder(marks)|
    ensures InOrder(marks)[i].id < InOrder(marks)[j].id
    decreases |marks|
  {
    var first := Least(marks.Keys);
    assert marks.Keys - {first} < marks.Keys;
    if i > 0 {
      InOrderIncreasing(marks - {first}, i - 1, j - 1);
    } else {
      InOrderAt(marks - {first}, j - 1);
    }
  }
}
