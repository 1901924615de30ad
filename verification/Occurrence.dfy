/** The orders in which marks are visited (crates/nisaba-core/src/mark.rs). */
module Occurrence {
  import opened Marks
  import opened Sorting

  /** String order: by scalar value, a prefix first. */
  predicate TextLeq(a: string, b: string) {
    if a == [] then true
    else if b == [] then false
    else a[0] < b[0] || (a[0] == b[0] && TextLeq(a[1..], b[1..]))
  }

  lemma {:induction false} TextTotal(a: string, b: string)
    ensures TextLeq(a, b) || TextLeq(b, a)
    ensures TextLeq(a, b) && TextLeq(b, a) ==> a == b
  {
    if a != [] && b != [] {
      TextTotal(a[1..], b[1..]);
      assert a == [a[0]] + a[1..] && b == [b[0]] + b[1..];
    }
  }

  lemma {:induction false} TextTransitive(a: string, b: string, c: string)
    requires TextLeq(a, b) && TextLeq(b, c)
    ensures TextLeq(a, c)
  {
    if a != [] && a[0] == b[0] == c[0] {
      TextTransitive(a[1..], b[1..], c[1..]);
    }
  }

  /** `a.occurrence_order(b)` is not `Greater`: timestamp, then author, then id. */
  predicate OccursBy(a: Mark, b: Mark) {
    if a.timestamp != b.timestamp then a.timestamp < b.timestamp
    else if a.author != b.author then TextLeq(a.author, b.author)
    else a.id <= b.id
  }

  lemma OccurrenceOrders()
    ensures Orders(OccursBy)
    ensures forall a: Mark, b: Mark :: OccursBy(a, b) && OccursBy(b, a) ==> a.id == b.id
  {
    forall a: Mark, b: Mark ensures OccursBy(a, b) || OccursBy(b, a) {
      TextTotal(a.author, b.author);
    }
    forall a: Mark, b: Mark | OccursBy(a, b) && OccursBy(b, a) ensures a.id == b.id {
      OccurrenceAntisymmetric(a, b);
    }
    forall a: Mark, b: Mark, c: Mark | OccursBy(a, b) && OccursBy(b, c) ensures OccursBy(a, c) {
      TextTotal(a.author, b.author);
      TextTotal(b.author, c.author);
      if TextLeq(a.author, b.author) && TextLeq(b.author, c.author) {
        TextTransitive(a.author, b.author, c.author);
      }
    }
  }

  lemma OccurrenceAntisymmetric(a: Mark, b: Mark)
    requires OccursBy(a, b) && OccursBy(b, a)
    ensures a.id == b.id
  {
    TextTotal(a.author, b.author);
  }

  /** The order of `sort_by_range`: start, then end, then occurrence. */
  predicate RangeBy(a: Mark, b: Mark) {
    if a.range.start != b.range.start then a.range.start < b.range.start
    else if a.range.end != b.range.end then a.range.end < b.range.end
    else OccursBy(a, b)
  }

  function KindTo(ms: seq<Mark>, kind: MarkKind, k: nat): seq<Mark>
    requires k <= |ms|
  {
    if k == 0 then []
    else KindTo(ms, kind, k - 1) + (if ms[k - 1].kind == kind then [ms[k - 1]] else [])
  }

  lemma {:induction false} KindElements(ms: seq<Mark>, kind: MarkKind, k: nat, m: Mark)
    requires k <= |ms|
    ensures m in KindTo(ms, kind, k) <==> m.kind == kind && exists i :: 0 <= i < k && ms[i] == m
  {
    if k > 0 { KindElements(ms, kind, k - 1, m); }
  }

  /** The marks of one kind in id order. */
  function KindInOrder(marks: MarkSet, kind: MarkKind): seq<Mark> {
    var ms := InOrder(marks);
    KindTo(ms, kind, |ms|)
  }

  lemma KindInOrderElements(marks: MarkSet, kind: MarkKind, m: Mark)
    ensures m in KindInOrder(marks, kind) <==> m.kind == kind && m.id in marks && marks[m.id] == m
  {
    var ms := InOrder(marks);
    KindElements(ms, kind, |ms|, m);
    if i :| 0 <= i < |ms| && ms[i] == m { InOrderAt(marks, i); }
    if m.id in marks && marks[m.id] == m {
      var i := InOrderHas(marks, m.id);
    }
  }

  /** `MarkSet::of_kind`. */
  function OfKind(marks: MarkSet, kind: MarkKind): seq<Mark> {
    Sort(KindInOrder(marks, kind), RangeBy)
  }

  lemma OfKindElements(marks: MarkSet, kind: MarkKind, m: Mark)
    ensures m in OfKind(marks, kind) <==> m.kind == kind && m.id in marks && marks[m.id] == m
  {
    KindInOrderElements(marks, kind, m);
    SameElements(OfKind(marks, kind), KindInOrder(marks, kind), m);
  }

  lemma {:induction false} KindDistinct(marks: MarkSet, kind: MarkKind, k: nat)
    requires k <= |InOrder(marks)|
    ensures Distinct(KindTo(InOrder(marks), kind, k))
  {
    if k > 0 {
      var ms := InOrder(marks);
      KindDistinct(marks, kind, k - 1);
      KindElements(ms, kind, k - 1, ms[k - 1]);
      if i :| 0 <= i < k - 1 && ms[i] == ms[k - 1] { InOrderIncreasing(marks, i, k - 1); }
    }
  }

  /** No mark is listed twice, so ids are listed once each. */
  lemma OfKindDistinct(marks: MarkSet, kind: MarkKind)
    ensures Distinct(OfKind(marks, kind))
  {
    KindDistinct(marks, kind, |InOrder(marks)|);
    SortDistinct(KindInOrder(marks, kind), RangeBy);
  }
}
