/**
  Validation of a text and its marks (crates/nisaba-core/src/validation.rs).

  Three conditions make a document valid: ranges in bounds and well ordered, no character
  both inserted and deleted, and no comment whose whole range is pending deletion.
 */
module Validation {
  import opened Arithmetic
  import opened Marks
  import opened Sorting
  import opened Occurrence
  import opened Projection

  datatype Issue =
    | InvertedRange(id: nat, range: TextRange)
    | OutOfBounds(id: nat, range: TextRange, textLen: Position)
    | InsertDeleteConflict(insert: nat, delete: nat, overlap: TextRange)
    | OrphanedComment(comment: nat, range: TextRange)

  // ------------------------------------------------------------------ the three conditions

  predicate InBounds(n: nat, marks: MarkSet) {
    forall id <- marks :: marks[id].range.start <= marks[id].range.end <= n
  }

  predicate ConflictFree(n: nat, marks: MarkSet) {
    forall c: nat :: c < n ==> !(Covered(marks, Insert, c) && Covered(marks, Delete, c))
  }

  /** A non-empty range every character of which some delete mark covers. */
  predicate FullyDeleted(marks: MarkSet, range: TextRange) {
    && !range.IsEmpty()
    && forall c :: range.start <= c < range.end ==> Covered(marks, Delete, c)
  }

  predicate NoOrphans(marks: MarkSet) {
    forall id <- marks :: marks[id].kind.Comment? ==> !FullyDeleted(marks, marks[id].range)
  }

  predicate Valid(text: string, marks: MarkSet) {
    InBounds(|text|, marks) && ConflictFree(|text|, marks) && NoOrphans(marks)
  }

  // ------------------------------------------------------------------ the deletion sweep

  predicate PairLeq(a: (Position, Position), b: (Position, Position)) {
    a.0 < b.0 || (a.0 == b.0 && a.1 <= b.1)
  }

  predicate PairsCover(pairs: seq<(Position, Position)>, c: int) {
    exists p <- pairs :: p.0 <= c < p.1
  }

  /** The parts of `range` that the first `k` marks cover. */
  function Clips(range: TextRange, ms: seq<Mark>, k: nat): seq<(Position, Position)>
    requires k <= |ms|
  {
    if k == 0 then []
    else
      Clips(range, ms, k - 1) +
      match ms[k - 1].range.Intersect(range)
      case Some(r) => [(r.start, r.end)]
      case None => []
  }

  lemma {:induction false} ClipsCover(range: TextRange, ms: seq<Mark>, k: nat, c: int)
    requires k <= |ms|
    ensures PairsCover(Clips(range, ms, k), c) <==>
            range.Covers(c) && SomeCovers(ms, k, c)
  {
    if k > 0 {
      ClipsCover(range, ms, k - 1, c);
      var more := match ms[k - 1].range.Intersect(range)
        case Some(r) => [(r.start, r.end)]
        case None => [];
      assert PairsCover(more, c) <==> range.Covers(c) && ms[k - 1].range.Covers(c) by {
        if range.Covers(c) && ms[k - 1].range.Covers(c) { assert more[0] in more; }
      }
      CoverConcat(Clips(range, ms, k - 1), more, c);
    }
  }

  lemma CoverConcat(ps: seq<(Position, Position)>, qs: seq<(Position, Position)>, c: int)
    ensures PairsCover(ps + qs, c) <==> PairsCover(ps, c) || PairsCover(qs, c)
  {
    if PairsCover(ps, c) {
      var p :| p in ps && p.0 <= c < p.1;
      assert p in ps + qs;
    }
    if PairsCover(qs, c) {
      var p :| p in qs && p.0 <= c < p.1;
      assert p in ps + qs;
    }
  }

  predicate SomeCovers(ms: seq<Mark>, k: nat, c: int)
    requires k <= |ms|
  {
    exists i :: 0 <= i < k && ms[i].range.Covers(c)
  }

  /** The sorted sweep: does `[from, to)` lie inside the union of the pairs? */
  method Sweep(pairs: seq<(Position, Position)>, from: Position, to: Position) returns (r: bool)
    requires from < to
    requires Sorted(pairs, PairLeq)
    ensures r <==> forall c :: from <= c < to ==> PairsCover(pairs, c)
  {
    var cursor := from;
    for k := 0 to |pairs|
      invariant from <= cursor < to
      invariant forall c :: from <= c < cursor ==> PairsCover(pairs, c)
      invariant forall i :: 0 <= i < k ==> pairs[i].1 <= cursor
    {
      var (s, e) := pairs[k];
      if s > cursor {
        assert !PairsCover(pairs, cursor) by {
          forall i | 0 <= i < |pairs| ensures !(pairs[i].0 <= cursor < pairs[i].1) {
            if i > k { assert PairLeq(pairs[k], pairs[i]); }
          }
        }
        return false;
      }
      assert pairs[k] in pairs;
      cursor := Max(cursor, e);
      if cursor >= to {
        return true;
      }
    }
    assert !PairsCover(pairs, cursor);
    r := false;
  }

  /** `is_range_fully_deleted`, for any list of delete marks. */
  method IsRangeFullyDeleted(range: TextRange, deletes: seq<Mark>) returns (r: bool)
    ensures r <==> !range.IsEmpty() &&
                   forall c :: range.start <= c < range.end ==> SomeCovers(deletes, |deletes|, c)
  {
    if range.IsEmpty() {
      return false;
    }
    var covered := [];
    for k := 0 to |deletes|
      invariant covered == Clips(range, deletes, k)
    {
      match deletes[k].range.Intersect(range)
      case Some(part) => covered := covered + [(part.start, part.end)];
      case None =>
    }
    var sorted := Sort(covered, PairLeq);
    SortSorted(covered, PairLeq);
    forall c ensures PairsCover(sorted, c) <==> range.Covers(c) && SomeCovers(deletes, |deletes|, c) {
      ClipsCover(range, deletes, |deletes|, c);
      SameCover(sorted, covered, c);
    }
    if covered == [] {
      assert !PairsCover(sorted, range.start);
      return false;
    }
    r := Sweep(sorted, range.start, range.end);
  }

  lemma SameCover(ps: seq<(Position, Position)>, qs: seq<(Position, Position)>, c: int)
    requires multiset(ps) == multiset(qs)
    ensures PairsCover(ps, c) <==> PairsCover(qs, c)
  {
    forall p ensures p in ps <==> p in qs {
      SameElements(ps, qs, p);
    }
  }

  lemma DeletesCover(marks: MarkSet, c: int)
    ensures Covered(marks, Delete, c) <==>
            SomeCovers(OfKind(marks, Delete), |OfKind(marks, Delete)|, c)
  {
    var deletes := OfKind(marks, Delete);
    if Covered(marks, Delete, c) {
      var id :| id in marks && marks[id].kind == Delete && marks[id].range.Covers(c);
      OfKindElements(marks, Delete, marks[id]);
      var i :| 0 <= i < |deletes| && deletes[i] == marks[id];
    }
    if i :| 0 <= i < |deletes| && deletes[i].range.Covers(c) {
      OfKindElements(marks, Delete, deletes[i]);
      assert deletes[i].id in marks;
    }
  }

  /** On the delete marks of a set the sweep decides the orphan condition. */
  lemma SweepIsFullyDeleted(marks: MarkSet, range: TextRange)
    ensures var deletes := OfKind(marks, Delete);
            FullyDeleted(marks, range) <==>
            !range.IsEmpty() && forall c :: range.start <= c < range.end ==> SomeCovers(deletes, |deletes|, c)
  {
    forall c ensures Covered(marks, Delete, c) <==> SomeCovers(OfKind(marks, Delete), |OfKind(marks, Delete)|, c) {
      DeletesCover(marks, c);
    }
  }

  // ------------------------------------------------------------------ orphaned comments

  predicate OrphanLeq(a: Issue, b: Issue) {
    OrphanKey(a) <= OrphanKey(b)
  }

  function OrphanKey(i: Issue): nat {
    if i.OrphanedComment? then i.comment else 0
  }

  function OrphansTo(marks: MarkSet, comments: seq<Mark>, k: nat): seq<Issue>
    requires k <= |comments|
  {
    if k == 0 then []
    else
      OrphansTo(marks, comments, k - 1) +
      if FullyDeleted(marks, comments[k - 1].range)
      then [OrphanedComment(comments[k - 1].id, comments[k - 1].range)]
      else []
  }

  lemma {:induction false} OrphansElements(marks: MarkSet, comments: seq<Mark>, k: nat, x: Issue)
    requires k <= |comments|
    ensures x in OrphansTo(marks, comments, k) <==>
            exists i :: 0 <= i < k && FullyDeleted(marks, comments[i].range)
                        && x == OrphanedComment(comments[i].id, comments[i].range)
  {
    if k > 0 { OrphansElements(marks, comments, k - 1, x); }
  }

  lemma {:induction false} OrphansDistinct(marks: MarkSet, comments: seq<Mark>, k: nat)
    requires k <= |comments|
    requires forall i, j :: 0 <= i < j < |comments| ==> comments[i].id != comments[j].id
    ensures Distinct(OrphansTo(marks, comments, k))
  {
    if k > 0 {
      OrphansDistinct(marks, comments, k - 1);
      var last := OrphanedComment(comments[k - 1].id, comments[k - 1].range);
      OrphansElements(marks, comments, k - 1, last);
    }
  }

  ghost predicate IsOrphan(marks: MarkSet, x: Issue) {
    && x.OrphanedComment?
    && x.comment in marks && marks[x.comment].kind.Comment? && marks[x.comment].range == x.range
    && FullyDeleted(marks, x.range)
  }

  /** The orphan section: every orphaned comment once, by increasing id. */
  ghost predicate OrphanReport(issues: seq<Issue>, marks: MarkSet) {
    && StrictlySorted(issues, OrphanLeq)
    && forall x :: x in issues <==> IsOrphan(marks, x)
  }

  lemma OrphansReported(marks: MarkSet)
    ensures var comments := OfKind(marks, Comment);
            OrphanReport(Sort(OrphansTo(marks, comments, |comments|), OrphanLeq), marks)
  {
    var comments := OfKind(marks, Comment);
    var found := OrphansTo(marks, comments, |comments|);
    OfKindDistinct(marks, Comment);
    forall i, j | 0 <= i < j < |comments| ensures comments[i].id != comments[j].id {
      OfKindElements(marks, Comment, comments[i]);
      OfKindElements(marks, Comment, comments[j]);
    }
    OrphansDistinct(marks, comments, |comments|);
    SortDistinct(found, OrphanLeq);
    SortSorted(found, OrphanLeq);
    forall x ensures x in Sort(found, OrphanLeq) <==> IsOrphan(marks, x) {
      SameElements(Sort(found, OrphanLeq), found, x);
      OrphansElements(marks, comments, |comments|, x);
      OrphanSource(marks, x);
    }
  }

  lemma OrphanSource(marks: MarkSet, x: Issue)
    ensures IsOrphan(marks, x) <==>
            exists i :: 0 <= i < |OfKind(marks, Comment)| && FullyDeleted(marks, OfKind(marks, Comment)[i].range)
                        && x == OrphanedComment(OfKind(marks, Comment)[i].id, OfKind(marks, Comment)[i].range)
  {
    var comments := OfKind(marks, Comment);
    if IsOrphan(marks, x) {
      OfKindElements(marks, Comment, marks[x.comment]);
      var i :| 0 <= i < |comments| && comments[i] == marks[x.comment];
    }
    if i :|
         0 <= i < |comments|
         && FullyDeleted(marks, comments[i].range)
         && x == OrphanedComment(comments[i].id, comments[i].range) {
      OfKindElements(marks, Comment, comments[i]);
    }
  }

  method FindOrphans(marks: MarkSet) returns (orphans: seq<Issue>)
    ensures OrphanReport(orphans, marks)
  {
    var deletes, comments := OfKind(marks, Delete), OfKind(marks, Comment);
    var found := [];
    for k := 0 to |comments|
      invariant found == OrphansTo(marks, comments, k)
    {
      var c := comments[k];
      SweepIsFullyDeleted(marks, c.range);
      if !c.range.IsEmpty() {
        var gone := IsRangeFullyDeleted(c.range, deletes);
        if gone {
          found := found + [OrphanedComment(c.id, c.range)];
        }
      }
    }
    OrphansReported(marks);
    orphans := Sort(found, OrphanLeq);
  }

  // ------------------------------------------------------------------ insert/delete conflicts

  /** A change mark's characters after clamping to the text. */
  datatype Span = Span(s: nat, e: nat, id: nat)

  /** The non-empty clamped spans of the first `k` marks. */
  function SpansTo(ms: seq<Mark>, n: nat, k: nat): seq<Span>
    requires k <= |ms|
  {
    if k == 0 then []
    else
      var m := ms[k - 1];
      var s, e := Min(m.range.start, n), Min(m.range.end, n);
      SpansTo(ms, n, k - 1) + if s < e then [Span(s, e, m.id)] else []
  }

  predicate SpanOf(sp: Span, m: Mark, n: nat) {
    sp == Span(Min(m.range.start, n), Min(m.range.end, n), m.id) && sp.s < sp.e
  }

  lemma {:induction false} SpansElements(ms: seq<Mark>, n: nat, k: nat, sp: Span)
    requires k <= |ms|
    ensures sp in SpansTo(ms, n, k) <==> exists i :: 0 <= i < k && SpanOf(sp, ms[i], n)
  {
    if k > 0 { SpansElements(ms, n, k - 1, sp); }
  }

  method CollectSpans(ms: seq<Mark>, n: nat) returns (spans: seq<Span>)
    ensures spans == SpansTo(ms, n, |ms|)
  {
    spans := [];
    for k := 0 to |ms|
      invariant spans == SpansTo(ms, n, k)
    {
      var s, e := Min(ms[k].range.start, n), Min(ms[k].range.end, n);
      if s < e {
        spans := spans + [Span(s, e, ms[k].id)];
      }
    }
  }

  predicate Clash(ins: Span, del: Span) {
    Max(ins.s, del.s) < Min(ins.e, del.e)
  }

  function Conflict(ins: Span, del: Span): Issue
    requires Clash(ins, del)
  {
    InsertDeleteConflict(ins.id, del.id,
      TextRange(SaturatingU32(Max(ins.s, del.s)), SaturatingU32(Min(ins.e, del.e))))
  }

  function RowTo(ins: Span, deletes: seq<Span>, k: nat): seq<Issue>
    requires k <= |deletes|
  {
    if k == 0 then []
    else RowTo(ins, deletes, k - 1) + if Clash(ins, deletes[k - 1]) then [Conflict(ins, deletes[k - 1])] else []
  }

  function CrossTo(inserts: seq<Span>, deletes: seq<Span>, k: nat): seq<Issue>
    requires k <= |inserts|
  {
    if k == 0 then []
    else CrossTo(inserts, deletes, k - 1) + RowTo(inserts[k - 1], deletes, |deletes|)
  }

  predicate ConflictOf(x: Issue, ins: Span, del: Span) {
    Clash(ins, del) && x == Conflict(ins, del)
  }

  lemma {:induction false} RowElements(ins: Span, deletes: seq<Span>, k: nat, x: Issue)
    requires k <= |deletes|
    ensures x in RowTo(ins, deletes, k) <==> exists j :: 0 <= j < k && ConflictOf(x, ins, deletes[j])
  {
    if k > 0 { RowElements(ins, deletes, k - 1, x); }
  }

  lemma {:induction false} CrossElements(inserts: seq<Span>, deletes: seq<Span>, k: nat, x: Issue)
    requires k <= |inserts|
    ensures x in CrossTo(inserts, deletes, k) <==>
            exists i :: 0 <= i < k && x in RowTo(inserts[i], deletes, |deletes|)
  {
    if k > 0 {
      var before, row := CrossTo(inserts, deletes, k - 1), RowTo(inserts[k - 1], deletes, |deletes|);
      InEither(before, row, x);
      assert x in before <==> exists i :: 0 <= i < k - 1 && x in RowTo(inserts[i], deletes, |deletes|) by {
        CrossElements(inserts, deletes, k - 1, x);
      }
    }
  }

  lemma InEither(xs: seq<Issue>, ys: seq<Issue>, x: Issue)
    ensures x in xs + ys <==> x in xs || x in ys
  {
  }

  method PairUp(inserts: seq<Span>, deletes: seq<Span>) returns (conflicts: seq<Issue>)
    ensures conflicts == CrossTo(inserts, deletes, |inserts|)
  {
    conflicts := [];
    for i := 0 to |inserts|
      invariant conflicts == CrossTo(inserts, deletes, i)
    {
      for j := 0 to |deletes|
        invariant conflicts == CrossTo(inserts, deletes, i) + RowTo(inserts[i], deletes, j)
      {
        if Max(inserts[i].s, deletes[j].s) < Min(inserts[i].e, deletes[j].e) {
          conflicts := conflicts + [Conflict(inserts[i], deletes[j])];
        }
      }
    }
  }

  function ConflictKey(i: Issue): (nat, nat) {
    if i.InsertDeleteConflict? then (i.insert, i.delete) else (0, 0)
  }

  predicate ConflictLeq(a: Issue, b: Issue) {
    var k, l := ConflictKey(a), ConflictKey(b);
    k.0 < l.0 || (k.0 == l.0 && k.1 <= l.1)
  }

  /** `x` names an insert and a delete mark, and its overlap is exactly what both cover. */
  ghost predicate IsConflict(n: nat, marks: MarkSet, x: Issue) {
    && x.InsertDeleteConflict?
    && x.insert in marks && marks[x.insert].kind.Insert?
    && x.delete in marks && marks[x.delete].kind.Delete?
    && !x.overlap.IsEmpty()
    && forall c :: x.overlap.Covers(c) <==> c < n && marks[x.insert].range.Covers(c) && marks[x.delete].range.Covers(c)
  }

  /** The conflict section: every clashing pair once, by insert id then delete id. */
  ghost predicate ConflictReport(issues: seq<Issue>, n: nat, marks: MarkSet) {
    && StrictlySorted(issues, ConflictLeq)
    && forall x :: x in issues <==> IsConflict(n, marks, x)
  }

  lemma OverlapUnique(a: TextRange, b: TextRange)
    requires !a.IsEmpty() && !b.IsEmpty()
    requires forall c :: a.Covers(c) <==> b.Covers(c)
    ensures a == b
  {
    assert a.Covers(a.start) && b.Covers(b.start) && a.Covers(a.end - 1) && b.Covers(b.end - 1);
    assert !a.Covers(a.end) && !b.Covers(b.end);
    assert !a.Covers(a.start - 1) && !b.Covers(b.start - 1);
  }

  /** A pair of spans reports exactly the shared characters of its marks. */
  lemma ConflictMeans(n: nat, marks: MarkSet, x: Issue, ins: nat, del: nat, si: Span, sd: Span)
    requires ins in marks && marks[ins].kind.Insert? && SpanOf(si, marks[ins], n)
    requires del in marks && marks[del].kind.Delete? && SpanOf(sd, marks[del], n)
    ensures ConflictOf(x, si, sd) ==> IsConflict(n, marks, x)
  {
  }

  lemma ConflictFound(n: nat, marks: MarkSet, x: Issue) returns (si: Span, sd: Span)
    requires IsConflict(n, marks, x)
    ensures SpanOf(si, marks[x.insert], n) && SpanOf(sd, marks[x.delete], n)
    ensures ConflictOf(x, si, sd)
  {
    var mi, md := marks[x.insert], marks[x.delete];
    assert x.overlap.Covers(x.overlap.start);
    si := Span(Min(mi.range.start, n), Min(mi.range.end, n), mi.id);
    sd := Span(Min(md.range.start, n), Min(md.range.end, n), md.id);
    OverlapUnique(x.overlap, Conflict(si, sd).overlap);
  }

  lemma ConflictsElements(n: nat, marks: MarkSet, x: Issue)
    ensures var inserts := SpansTo(KindInOrder(marks, Insert), n, |KindInOrder(marks, Insert)|);
            var deletes := SpansTo(OfKind(marks, Delete), n, |OfKind(marks, Delete)|);
            x in CrossTo(inserts, deletes, |inserts|) <==> IsConflict(n, marks, x)
  {
    var mi, md := KindInOrder(marks, Insert), OfKind(marks, Delete);
    var inserts, deletes := SpansTo(mi, n, |mi|), SpansTo(md, n, |md|);
    CrossElements(inserts, deletes, |inserts|, x);
    if i :| 0 <= i < |inserts| && x in RowTo(inserts[i], deletes, |deletes|) {
      RowElements(inserts[i], deletes, |deletes|, x);
      var j :| 0 <= j < |deletes| && ConflictOf(x, inserts[i], deletes[j]);
      SpansElements(mi, n, |mi|, inserts[i]);
      SpansElements(md, n, |md|, deletes[j]);
      var a :| 0 <= a < |mi| && SpanOf(inserts[i], mi[a], n);
      var b :| 0 <= b < |md| && SpanOf(deletes[j], md[b], n);
      KindInOrderElements(marks, Insert, mi[a]);
      OfKindElements(marks, Delete, md[b]);
      ConflictMeans(n, marks, x, mi[a].id, md[b].id, inserts[i], deletes[j]);
    }
    if IsConflict(n, marks, x) {
      var si, sd := ConflictFound(n, marks, x);
      KindInOrderElements(marks, Insert, marks[x.insert]);
      OfKindElements(marks, Delete, marks[x.delete]);
      SpansElements(mi, n, |mi|, si);
      SpansElements(md, n, |md|, sd);
      RowElements(si, deletes, |deletes|, x);
    }
  }

  lemma ConflictUnique(n: nat, marks: MarkSet, x: Issue, y: Issue)
    requires IsConflict(n, marks, x) && IsConflict(n, marks, y) && ConflictLeq(x, y) && ConflictLeq(y, x)
    ensures x == y
  {
    OverlapUnique(x.overlap, y.overlap);
  }

  lemma ConflictsReported(n: nat, marks: MarkSet, cross: seq<Issue>)
    requires var inserts := SpansTo(KindInOrder(marks, Insert), n, |KindInOrder(marks, Insert)|);
             var deletes := SpansTo(OfKind(marks, Delete), n, |OfKind(marks, Delete)|);
             cross == CrossTo(inserts, deletes, |inserts|)
    ensures ConflictReport(DedupAdjacent(Sort(cross, ConflictLeq)), n, marks)
  {
    var sorted := Sort(cross, ConflictLeq);
    SortSorted(cross, ConflictLeq);
    forall x ensures x in sorted <==> IsConflict(n, marks, x) {
      SameElements(sorted, cross, x);
      ConflictsElements(n, marks, x);
    }
    forall x, y | x in sorted && y in sorted && ConflictLeq(x, y) && ConflictLeq(y, x) ensures x == y {
      ConflictUnique(n, marks, x, y);
    }
    DedupAdjacentSorted(sorted, ConflictLeq);
    forall x ensures x in DedupAdjacent(sorted) <==> IsConflict(n, marks, x) {
      DedupAdjacentElements(sorted, x);
    }
  }

  /** Without a doubly flagged character no pair clashes, so skipping the pairing is sound. */
  lemma NoFlagNoConflict(n: nat, marks: MarkSet)
    requires ConflictFree(n, marks)
    ensures ConflictReport([], n, marks)
  {
    forall x ensures !IsConflict(n, marks, x) {
      if IsConflict(n, marks, x) {
        assert x.overlap.Covers(x.overlap.start);
        assert Covered(marks, Insert, x.overlap.start) && Covered(marks, Delete, x.overlap.start);
      }
    }
  }

  method FindConflicts(text: string, marks: MarkSet) returns (conflicts: seq<Issue>)
    ensures ConflictReport(conflicts, |text|, marks)
  {
    var flags := CharFlags(text, marks);
    var hasConflict := exists i :: 0 <= i < |flags| && flags[i] & FLAG_INSERT != 0 && flags[i] & FLAG_DELETE != 0;
    if hasConflict {
      var inserts := CollectSpans(KindInOrder(marks, Insert), |text|);
      var deletes := CollectSpans(OfKind(marks, Delete), |text|);
      var cross := PairUp(inserts, deletes);
      conflicts := DedupAdjacent(Sort(cross, ConflictLeq));
      ConflictsReported(|text|, marks, cross);
    } else {
      NoFlagNoConflict(|text|, marks);
      conflicts := [];
    }
  }

  // ------------------------------------------------------------------ the whole report

  function StructuralOf(m: Mark, n: nat): seq<Issue> {
    if !m.range.IsWellOrdered() then [InvertedRange(m.id, m.range)]
    else if m.range.start > n || m.range.end > n then [OutOfBounds(m.id, m.range, SaturatingU32(n))]
    else []
  }

  function StructuralTo(ms: seq<Mark>, n: nat, k: nat): seq<Issue>
    requires k <= |ms|
  {
    if k == 0 then [] else StructuralTo(ms, n, k - 1) + StructuralOf(ms[k - 1], n)
  }

  function StructuralId(x: Issue): nat { if x.InvertedRange? || x.OutOfBounds? then x.id else 0 }

  /** An inverted mark is reported as such and nothing else; any other that ends past the text, as out of bounds. */
  ghost predicate IsStructural(n: nat, marks: MarkSet, x: Issue) {
    && (x.InvertedRange? || x.OutOfBounds?)
    && StructuralId(x) in marks && marks[StructuralId(x)].range == x.range
    && (x.InvertedRange? ==> x.range.start > x.range.end)
    && (x.OutOfBounds? ==> x.range.start <= x.range.end && x.range.end > n && x.textLen == SaturatingU32(n))
  }

  predicate IdsIncrease(issues: seq<Issue>) {
    forall i, j :: 0 <= i < j < |issues| ==> StructuralId(issues[i]) < StructuralId(issues[j])
  }

  lemma IdsIncreaseSnoc(issues: seq<Issue>, x: Issue)
    requires IdsIncrease(issues) && forall i :: 0 <= i < |issues| ==> StructuralId(issues[i]) < StructuralId(x)
    ensures IdsIncrease(issues + [x])
  {
  }

  /** The structural section: every such mark once, by increasing id. */
  ghost predicate StructuralReport(issues: seq<Issue>, n: nat, marks: MarkSet) {
    && IdsIncrease(issues)
    && forall x :: x in issues <==> IsStructural(n, marks, x)
  }

  lemma {:induction false} StructuralElements(ms: seq<Mark>, n: nat, k: nat, x: Issue)
    requires k <= |ms|
    ensures x in StructuralTo(ms, n, k) <==> exists i :: 0 <= i < k && x in StructuralOf(ms[i], n)
  {
    if k > 0 { StructuralElements(ms, n, k - 1, x); }
  }

  lemma StructuralOne(m: Mark, n: nat, x: Issue)
    ensures x in StructuralOf(m, n) ==> StructuralId(x) == m.id && (x.InvertedRange? || x.OutOfBounds?)
    ensures |StructuralOf(m, n)| <= 1
  {
  }

  lemma {:induction false} StructuralIncreases(ms: seq<Mark>, n: nat, k: nat)
    requires k <= |ms| && forall i, j :: 0 <= i < j < |ms| ==> ms[i].id < ms[j].id
    ensures IdsIncrease(StructuralTo(ms, n, k))
  {
    if k > 0 {
      StructuralIncreases(ms, n, k - 1);
      var r, last := StructuralTo(ms, n, k - 1), StructuralOf(ms[k - 1], n);
      if last != [] {
        StructuralOne(ms[k - 1], n, last[0]);
        assert last == [last[0]];
        forall i | 0 <= i < |r| ensures StructuralId(r[i]) < StructuralId(last[0]) {
          StructuralElements(ms, n, k - 1, r[i]);
          var m :| 0 <= m < k - 1 && r[i] in StructuralOf(ms[m], n);
          StructuralOne(ms[m], n, r[i]);
        }
        IdsIncreaseSnoc(r, last[0]);
      } else {
        assert r + last == r;
      }
    }
  }

  lemma StructuralReported(marks: MarkSet, n: nat)
    ensures StructuralReport(StructuralTo(InOrder(marks), n, |InOrder(marks)|), n, marks)
  {
    var ms := InOrder(marks);
    forall i, j | 0 <= i < j < |ms| ensures ms[i].id < ms[j].id { InOrderIncreasing(marks, i, j); }
    StructuralIncreases(ms, n, |ms|);
    forall x ensures x in StructuralTo(ms, n, |ms|) <==> IsStructural(n, marks, x) {
      StructuralElements(ms, n, |ms|, x);
      if i :| 0 <= i < |ms| && x in StructuralOf(ms[i], n) {
        InOrderAt(marks, i);
      }
      if IsStructural(n, marks, x) {
        var i := InOrderHas(marks, StructuralId(x));
        assert x in StructuralOf(ms[i], n);
      }
    }
  }

  lemma StructuralMeans(issues: seq<Issue>, n: nat, marks: MarkSet)
    requires StructuralReport(issues, n, marks)
    ensures issues == [] <==> InBounds(n, marks)
  {
    if issues != [] {
      assert IsStructural(n, marks, issues[0]);
    } else if !InBounds(n, marks) {
      var id :| id in marks && !(marks[id].range.start <= marks[id].range.end <= n);
      var r := marks[id].range;
      assert IsStructural(n, marks, if r.IsWellOrdered() then OutOfBounds(id, r, SaturatingU32(n))
        else InvertedRange(id, r));
    }
  }

  lemma ConflictsMean(issues: seq<Issue>, n: nat, marks: MarkSet)
    requires ConflictReport(issues, n, marks)
    ensures issues == [] <==> ConflictFree(n, marks)
  {
    if issues != [] {
      var x := issues[0];
      assert IsConflict(n, marks, x) && x.overlap.Covers(x.overlap.start);
      assert Covered(marks, Insert, x.overlap.start) && Covered(marks, Delete, x.overlap.start);
    } else if !ConflictFree(n, marks) {
      var c: nat :| c < n && Covered(marks, Insert, c) && Covered(marks, Delete, c);
      var i :| i in marks && marks[i].kind == Insert && marks[i].range.Covers(c);
      var d :| d in marks && marks[d].kind == Delete && marks[d].range.Covers(c);
      var si := Span(Min(marks[i].range.start, n), Min(marks[i].range.end, n), i);
      var sd := Span(Min(marks[d].range.start, n), Min(marks[d].range.end, n), d);
      ConflictMeans(n, marks, Conflict(si, sd), i, d, si, sd);
    }
  }

  lemma OrphansMean(issues: seq<Issue>, marks: MarkSet)
    requires OrphanReport(issues, marks)
    ensures issues == [] <==> NoOrphans(marks)
  {
    if issues == [] {
      forall id | id in marks && marks[id].kind.Comment? ensures !FullyDeleted(marks, marks[id].range) {
        assert !IsOrphan(marks, OrphanedComment(id, marks[id].range));
      }
    } else {
      assert IsOrphan(marks, issues[0]);
    }
  }

  ghost predicate Report(issues: seq<Issue>, text: string, marks: MarkSet, structural: seq<Issue>,
                         conflicts: seq<Issue>, orphans: seq<Issue>) {
    && issues == structural + conflicts + orphans
    && StructuralReport(structural, |text|, marks)
    && ConflictReport(conflicts, |text|, marks)
    && OrphanReport(orphans, marks)
  }

  method Validate(text: string, marks: MarkSet) returns (issues: seq<Issue>)
    ensures exists structural, conflicts, orphans :: Report(issues, text, marks, structural, conflicts, orphans)
    ensures issues == [] <==> Valid(text, marks)
  {
    var ms := InOrder(marks);
    issues := [];
    for k := 0 to |ms|
      invariant issues == StructuralTo(ms, |text|, k)
    {
      var m := ms[k];
      if !m.range.IsWellOrdered() {
        issues := issues + [InvertedRange(m.id, m.range)];
      } else if m.range.start > |text| || m.range.end > |text| {
        issues := issues + [OutOfBounds(m.id, m.range, SaturatingU32(|text|))];
      }
    }
    ghost var structural := issues;
    var conflicts := FindConflicts(text, marks);
    var orphans := FindOrphans(marks);
    issues := issues + conflicts + orphans;
    StructuralReported(marks, |text|);
    StructuralMeans(structural, |text|, marks);
    ConflictsMean(conflicts, |text|, marks);
    OrphansMean(orphans, marks);
    assert Report(issues, text, marks, structural, conflicts, orphans);
  }
}
