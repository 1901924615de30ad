/**
  What the outcome of a resolution, and the operation list of a batch, report about the marks
  (crates/nisaba-core/src/resolution.rs, crates/nisaba-core/src/review.rs).
 */
module Reports {
  import opened Wrappers
  import opened Marks
  import opened Sorting
  import opened Occurrence
  import opened Survivors
  import opened Resolution
  import opened ResolutionRuns
  import opened Bulk

  // ------------------------------------------------------------------ one resolution

  /** The marks that stay but lie elsewhere. */
  function MovedIds(before: MarkSet, after: MarkSet): set<nat> {
    set id | id in after && id in before && after[id].range != before[id].range
  }

  function MovedTo(ms: seq<Mark>, id: nat, s: Position, e: Position, k: nat): set<nat>
    requires k <= |ms|
  {
    if k == 0 then {}
    else MovedTo(ms, id, s, e, k - 1) + if ms[k - 1].id != id && Moves(ms[k - 1], s, e) then {ms[k - 1].id} else {}
  }

  /** The mark at `i` is among the first `k`, is not the resolved one and changes its range. */
  predicate MovedAt(ms: seq<Mark>, id: nat, s: Position, e: Position, k: nat, i: int, x: nat) {
    0 <= i < k <= |ms| && ms[i].id == x != id && Moves(ms[i], s, e)
  }

  lemma {:induction false} MovedElements(ms: seq<Mark>, id: nat, s: Position, e: Position, k: nat, x: nat)
    requires k <= |ms|
    ensures x in MovedTo(ms, id, s, e, k) <==> exists i :: MovedAt(ms, id, s, e, k, i, x)
  {
    if k > 0 {
      var before: nat := k - 1;
      MovedElements(ms, id, s, e, before, x);
      if i :| MovedAt(ms, id, s, e, before, i, x) { assert MovedAt(ms, id, s, e, k, i, x); }
      if i :| MovedAt(ms, id, s, e, k, i, x) { assert i < before ==> MovedAt(ms, id, s, e, before, i, x); }
      if x in MovedTo(ms, id, s, e, k) && x !in MovedTo(ms, id, s, e, before) {
        assert MovedAt(ms, id, s, e, k, before, x);
      }
    }
  }

  predicate IdsIncrease(ms: seq<Mark>) { forall i, j :: 0 <= i < j < |ms| ==> ms[i].id < ms[j].id }

  lemma {:induction false} MovedCountIs(ms: seq<Mark>, id: nat, s: Position, e: Position, k: nat)
    requires k <= |ms| && IdsIncrease(ms)
    ensures MovedCount(ms, id, s, e, k) == |MovedTo(ms, id, s, e, k)|
  {
    if k > 0 {
      MovedCountIs(ms, id, s, e, k - 1);
      MovedElements(ms, id, s, e, k - 1, ms[k - 1].id);
    }
  }

  predicate Increasing(ids: seq<nat>) { forall i, j :: 0 <= i < j < |ids| ==> ids[i] < ids[j] }

  predicate EmptiedAt(ms: seq<Mark>, id: nat, s: Position, e: Position, k: nat, i: int, x: nat) {
    0 <= i < k <= |ms| && ms[i].id == x != id && Empties(ms[i], s, e)
  }

  lemma {:induction false} EmptiedElements(ms: seq<Mark>, id: nat, s: Position, e: Position, k: nat, x: nat)
    requires k <= |ms|
    ensures x in EmptiedIds(ms, id, s, e, k) <==> exists i :: EmptiedAt(ms, id, s, e, k, i, x)
  {
    if k > 0 {
      var before: nat := k - 1;
      EmptiedElements(ms, id, s, e, before, x);
      if i :| EmptiedAt(ms, id, s, e, before, i, x) { assert EmptiedAt(ms, id, s, e, k, i, x); }
      if i :| EmptiedAt(ms, id, s, e, k, i, x) { assert i < before ==> EmptiedAt(ms, id, s, e, before, i, x); }
      if x in EmptiedIds(ms, id, s, e, k) && x !in EmptiedIds(ms, id, s, e, before) {
        assert EmptiedAt(ms, id, s, e, k, before, x);
      }
    }
  }

  lemma {:induction false} EmptiedIncrease(ms: seq<Mark>, id: nat, s: Position, e: Position, k: nat)
    requires k <= |ms| && IdsIncrease(ms)
    ensures Increasing(EmptiedIds(ms, id, s, e, k))
  {
    if k > 0 {
      EmptiedIncrease(ms, id, s, e, k - 1);
      var ids := EmptiedIds(ms, id, s, e, k - 1);
      forall i | 0 <= i < |ids| ensures ids[i] < ms[k - 1].id { EmptiedElements(ms, id, s, e, k - 1, ids[i]); }
    }
  }

  /** The range a resolution reports is what it cut out: the resolved mark's characters, if any. */
  ghost predicate RemovalReported(text: string, m: Mark, verdict: Verdict, o: Outcome) {
    && (o.textChanged <==> o.removedRange.Some?)
    && (o.textChanged <==> RemovesText(m.kind, verdict) && exists c :: 0 <= c < |text| && m.range.Covers(c))
    && (!o.textChanged ==> o.text == text)
    && (o.textChanged ==>
          var r := o.removedRange.value;
          r.start <= r.end <= |text| && o.text == Cut(text, r.start, r.end)
          && forall c :: r.Covers(c) <==> c < |text| && m.range.Covers(c))
  }

  /** The counts and lists compare the marks before with the marks after. */
  ghost predicate MarksReported(before: MarkSet, id: nat, o: Outcome) {
    && o.marks.Keys == before.Keys - {id}
    && o.remapped == |MovedIds(before, o.marks)|
    && Increasing(o.emptied)
    && forall x :: x in o.emptied <==> x in o.marks && !before[x].range.IsEmpty() && o.marks[x].range.IsEmpty()
  }

  lemma MovedAreReported(marks: MarkSet, id: nat, s: Position, e: Position)
    ensures MovedCount(InOrder(marks), id, s, e, |InOrder(marks)|)
            == |MovedIds(marks, RemapOthers(marks, id, s, e))|
  {
    var ms, after := InOrder(marks), RemapOthers(marks, id, s, e);
    forall i, j | 0 <= i < j < |ms| ensures ms[i].id < ms[j].id { InOrderIncreasing(marks, i, j); }
    MovedCountIs(ms, id, s, e, |ms|);
    forall x ensures x in MovedIds(marks, after) <==> x in MovedTo(ms, id, s, e, |ms|) {
      MovedElements(ms, id, s, e, |ms|, x);
      if i :| MovedAt(ms, id, s, e, |ms|, i, x) { InOrderAt(marks, i); }
      if x in MovedIds(marks, after) {
        var i := InOrderHas(marks, x);
        assert MovedAt(ms, id, s, e, |ms|, i, x);
      }
    }
    assert MovedIds(marks, after) == MovedTo(ms, id, s, e, |ms|);
  }

  lemma EmptiedAreReported(marks: MarkSet, id: nat, s: Position, e: Position, x: nat)
    ensures var after := RemapOthers(marks, id, s, e);
            x in EmptiedIds(InOrder(marks), id, s, e, |InOrder(marks)|) <==>
            x in after && !marks[x].range.IsEmpty() && after[x].range.IsEmpty()
  {
    var ms, after := InOrder(marks), RemapOthers(marks, id, s, e);
    EmptiedElements(ms, id, s, e, |ms|, x);
    if i :| EmptiedAt(ms, id, s, e, |ms|, i, x) { InOrderAt(marks, i); }
    if x in after && !marks[x].range.IsEmpty() && after[x].range.IsEmpty() {
      var i := InOrderHas(marks, x);
      assert EmptiedAt(ms, id, s, e, |ms|, i, x);
    }
  }

  lemma MarksAreReported(text: string, marks: MarkSet, id: nat, s: nat, e: nat)
    requires id in marks && s <= e <= |text| && e <= U32_MAX
    ensures MarksReported(marks, id, Removal(text, marks, id, s, e))
  {
    var ms, o := InOrder(marks), Removal(text, marks, id, s, e);
    MovedAreReported(marks, id, s, e);
    forall x ensures x in o.emptied <==> x in o.marks && !marks[x].range.IsEmpty() && o.marks[x].range.IsEmpty() {
      EmptiedAreReported(marks, id, s, e, x);
    }
    forall i, j | 0 <= i < j < |ms| ensures ms[i].id < ms[j].id { InOrderIncreasing(marks, i, j); }
    EmptiedIncrease(ms, id, s, e, |ms|);
  }

  /** Every field of the outcome of an accept or a reject, in terms of the text and the marks. */
  lemma OutcomeReports(text: string, marks: MarkSet, id: nat, verdict: Verdict)
    requires Resolved(text, marks, id, verdict).Ok?
    ensures var o := Resolved(text, marks, id, verdict).value;
            RemovalReported(text, marks[id], verdict, o) && MarksReported(marks, id, o)
  {
    var o := Resolved(text, marks, id, verdict).value;
    var r := marks[id].range;
    if o.textChanged {
      var s, e := o.removedRange.value.start, o.removedRange.value.end;
      assert r.Covers(s);
      MarksAreReported(text, marks, id, s, e);
    } else {
      assert MovedIds(marks, o.marks) == {};
    }
  }

  // ------------------------------------------------------------------ a batch

  /** Older first, then by author, then by id. */
  predicate Earlier(a: Mark, b: Mark) {
    || a.timestamp < b.timestamp
    || (a.timestamp == b.timestamp && a.author != b.author && TextLeq(a.author, b.author))
    || (a.timestamp == b.timestamp && a.author == b.author && a.id < b.id)
  }

  lemma {:induction false} OneOperationEach(st: State, order: seq<Mark>, verdict: Verdict)
    requires BulkRun(st, order, verdict).Ok?
    requires forall m <- order :: m.id in st.marks
    requires forall i, j :: 0 <= i < j < |order| ==> order[i].id != order[j].id
    ensures var b := BulkRun(st, order, verdict).value;
            && |b.operations| == |order|
            && (forall i :: 0 <= i < |order| ==> b.operations[i].id == order[i].id)
            && (forall id :: id in b.marks <==> id in st.marks && forall m <- order :: m.id != id)
  {
    if order != [] {
      var init, last := order[..|order| - 1], order[|order| - 1];
      assert order == init + [last];
      OneOperationEach(st, init, verdict);
      var b := BulkRun(st, init, verdict).value;
      assert last.id in b.marks;
      forall x ensures x in Resolved(b.text, b.marks, last.id, verdict).value.marks <==> x in b.marks && x != last.id {
        ResolvedDrops(b.text, b.marks, last.id, verdict, x);
      }
    }
  }

  /** A batch reports one operation for each mark it was given, the oldest mark first. */
  lemma BatchReports(st: State, ids: seq<nat>, verdict: Verdict)
    requires BulkRun(st, Schedule(st.marks, ids), verdict).Ok?
    ensures var ops := BulkRun(st, Schedule(st.marks, ids), verdict).value.operations;
            && (forall id :: (exists i :: 0 <= i < |ops| && ops[i].id == id) <==> id in ids && id in st.marks)
            && (forall i :: 0 <= i < |ops| ==> ops[i].id in st.marks)
            && forall i, j :: 0 <= i < j < |ops| ==> Earlier(st.marks[ops[i].id], st.marks[ops[j].id])
  {
    var order := Dedup(Schedule(st.marks, ids));
    BulkDedup(st, Schedule(st.marks, ids), verdict);
    OccurrenceOrders();
    SortSorted(Selected(st.marks, ids), OccursBy);
    DedupSorted(Schedule(st.marks, ids), OccursBy);
    forall m ensures m in order <==> m.id in ids && m.id in st.marks && st.marks[m.id] == m {
      DedupElements(Schedule(st.marks, ids), m);
      ScheduleElements(st.marks, ids, m);
    }
    forall i, j | 0 <= i < j < |order| ensures order[i].id != order[j].id && Earlier(order[i], order[j]) {
      assert order[i] in order && order[j] in order;
    }
    OneOperationEach(st, order, verdict);
    forall id | id in ids && id in st.marks ensures exists i :: 0 <= i < |order| && order[i].id == id {
      assert st.marks[id] in order;
    }
  }
}
