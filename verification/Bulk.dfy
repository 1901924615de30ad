/**
  Bulk accept and reject (crates/nisaba-core/src/review.rs).

  The batch is resolved in occurrence order, so the caller's order and repeated ids must
  not matter; that, and what the batch leaves behind, is what is proved here.
 */
module Bulk {
  import opened Wrappers
  import opened Marks
  import opened Sorting
  import opened Occurrence
  import opened Resolution
  import opened ResolutionRuns
  import opened Projection
  import opened ViewRuns

  datatype BulkOperation = BulkOperation(
    id: nat,
    textChanged: bool,
    removedRange: Option<TextRange>,
    remapped: nat,
    emptied: seq<nat>)

  datatype BulkOutcome = BulkOutcome(operations: seq<BulkOperation>, text: string, marks: MarkSet)

  // ------------------------------------------------------------------ the batch

  /** The requested marks that exist, in the caller's order. */
  function Selected(marks: MarkSet, ids: seq<nat>): seq<Mark> {
    if ids == [] then []
    else Selected(marks, ids[..|ids| - 1]) + (if ids[|ids| - 1] in marks then [marks[ids[|ids| - 1]]] else [])
  }

  lemma {:induction false} SelectedElements(marks: MarkSet, ids: seq<nat>, m: Mark)
    ensures m in Selected(marks, ids) <==> m.id in ids && m.id in marks && marks[m.id] == m
  {
    if ids != [] {
      SelectedElements(marks, ids[..|ids| - 1], m);
      assert ids == ids[..|ids| - 1] + [ids[|ids| - 1]];
    }
  }

  function Schedule(marks: MarkSet, ids: seq<nat>): seq<Mark> {
    Sort(Selected(marks, ids), OccursBy)
  }

  lemma ScheduleElements(marks: MarkSet, ids: seq<nat>, m: Mark)
    ensures m in Schedule(marks, ids) <==> m.id in ids && m.id in marks && marks[m.id] == m
  {
    SelectedElements(marks, ids, m);
    SameElements(Schedule(marks, ids), Selected(marks, ids), m);
  }

  function Summary(id: nat, o: Outcome): BulkOperation {
    BulkOperation(id, o.textChanged, o.removedRange, o.remapped, o.emptied)
  }

  /** Resolve one more mark of the batch; one that is already gone is skipped. */
  function BulkStep(b: BulkOutcome, id: nat, verdict: Verdict): Result<BulkOutcome, ResolutionError> {
    if id !in b.marks then Ok(b)
    else match Resolved(b.text, b.marks, id, verdict)
      case Ok(o) => Ok(BulkOutcome(b.operations + [Summary(id, o)], o.text, o.marks))
      case Err(e) => Err(e)
  }

  function BulkRun(st: State, order: seq<Mark>, verdict: Verdict): Result<BulkOutcome, ResolutionError> {
    if order == [] then Ok(BulkOutcome([], st.text, st.marks))
    else match BulkRun(st, order[..|order| - 1], verdict)
      case Ok(b) => BulkStep(b, order[|order| - 1].id, verdict)
      case Err(e) => Err(e)
  }

  lemma {:induction false} BulkErrSticks(st: State, order: seq<Mark>, k: nat, verdict: Verdict)
    requires k <= |order| && BulkRun(st, order[..k], verdict).Err?
    ensures BulkRun(st, order, verdict) == BulkRun(st, order[..k], verdict)
    decreases |order|
  {
    if k < |order| {
      assert order[..|order| - 1][..k] == order[..k];
      BulkErrSticks(st, order[..|order| - 1], k, verdict);
    } else {
      assert order[..k] == order;
    }
  }

  method SelectMarks(marks: MarkSet, ids: seq<nat>) returns (selected: seq<Mark>)
    ensures selected == Selected(marks, ids)
  {
    selected := [];
    for i := 0 to |ids|
      invariant selected == Selected(marks, ids[..i])
    {
      assert ids[..i + 1][..i] == ids[..i];
      if ids[i] in marks {
        selected := selected + [marks[ids[i]]];
      }
    }
    assert ids[..|ids|] == ids;
  }

  /** Resolves the marks in turn, up to the first that is refused. */
  method ResolveInOrder(text: string, marks: MarkSet, order: seq<Mark>, verdict: Verdict)
    returns (r: Result<BulkOutcome, ResolutionError>)
    ensures r == BulkRun(State(text, marks), order, verdict)
  {
    var b := BulkOutcome([], text, marks);
    for i := 0 to |order|
      invariant BulkRun(State(text, marks), order[..i], verdict) == Ok(b)
    {
      assert order[..i + 1][..i] == order[..i];
      var next := ResolveNext(b, order[i].id, verdict);
      if next.Err? {
        BulkErrSticks(State(text, marks), order, i + 1, verdict);
        return next;
      }
      b := next.value;
    }
    assert order[..|order|] == order;
    r := Ok(b);
  }

  /** One mark of the batch; one that is already gone is skipped. */
  method ResolveNext(b: BulkOutcome, id: nat, verdict: Verdict) returns (r: Result<BulkOutcome, ResolutionError>)
    ensures r == BulkStep(b, id, verdict)
  {
    if id !in b.marks {
      return Ok(b);
    }
    var outcome := Resolve(b.text, b.marks, id, verdict);
    if outcome.Err? {
      return Err(outcome.error);
    }
    r := Ok(BulkOutcome(b.operations + [Summary(id, outcome.value)], outcome.value.text, outcome.value.marks));
  }

  method ResolveBulk(text: string, marks: MarkSet, ids: seq<nat>, verdict: Verdict)
    returns (r: Result<BulkOutcome, ResolutionError>)
    ensures r == BulkRun(State(text, marks), Schedule(marks, ids), verdict)
  {
    var selected := SelectMarks(marks, ids);
    r := ResolveInOrder(text, marks, Sort(selected, OccursBy), verdict);
  }

  // ------------------------------------------------------------------ caller order does not matter

  lemma ResolvedDrops(text: string, marks: MarkSet, id: nat, verdict: Verdict, x: nat)
    requires Resolved(text, marks, id, verdict).Ok?
    ensures x in Resolved(text, marks, id, verdict).value.marks <==> x in marks && x != id
  {
  }

  lemma {:induction false} BulkRemoves(st: State, order: seq<Mark>, verdict: Verdict, m: Mark)
    requires BulkRun(st, order, verdict).Ok? && m in order
    ensures m.id !in BulkRun(st, order, verdict).value.marks
  {
    var init, last := order[..|order| - 1], order[|order| - 1];
    assert order == init + [last];
    var b := BulkRun(st, init, verdict).value;
    if m in init { BulkRemoves(st, init, verdict, m); }
    if last.id in b.marks { ResolvedDrops(b.text, b.marks, last.id, verdict, m.id); }
  }

  lemma {:induction false} BulkDedup(st: State, order: seq<Mark>, verdict: Verdict)
    ensures BulkRun(st, Dedup(order), verdict) == BulkRun(st, order, verdict)
  {
    if order != [] {
      var init, last := order[..|order| - 1], order[|order| - 1];
      BulkDedup(st, init, verdict);
      if last in init {
        if BulkRun(st, init, verdict).Ok? { BulkRemoves(st, init, verdict, last); }
      } else {
        assert (Dedup(init) + [last])[..|Dedup(init)|] == Dedup(init);
      }
    }
  }

  lemma ScheduleUnique(marks: MarkSet, ids: seq<nat>, ids': seq<nat>)
    requires forall id :: id in ids <==> id in ids'
    ensures Dedup(Schedule(marks, ids)) == Dedup(Schedule(marks, ids'))
  {
    var s, s' := Schedule(marks, ids), Schedule(marks, ids');
    OccurrenceOrders();
    SortSorted(Selected(marks, ids), OccursBy);
    SortSorted(Selected(marks, ids'), OccursBy);
    DedupSorted(s, OccursBy);
    DedupSorted(s', OccursBy);
    forall m ensures m in Dedup(s) <==> m in Dedup(s') {
      DedupElements(s, m);
      DedupElements(s', m);
      ScheduleElements(marks, ids, m);
      ScheduleElements(marks, ids', m);
    }
    forall a, b | a in Dedup(s) && b in Dedup(s) && OccursBy(a, b) && OccursBy(b, a) ensures a == b {
      OccurrenceAntisymmetric(a, b);
      DedupElements(s, a);
      DedupElements(s, b);
      ScheduleElements(marks, ids, a);
      ScheduleElements(marks, ids, b);
    }
    ListingUnique(Dedup(s), Dedup(s'), OccursBy);
  }

  /** Text, marks, operation list and error depend on the set of ids alone. */
  lemma BulkIgnoresCallerOrder(st: State, ids: seq<nat>, ids': seq<nat>, verdict: Verdict)
    requires forall id :: id in ids <==> id in ids'
    ensures BulkRun(st, Schedule(st.marks, ids), verdict) == BulkRun(st, Schedule(st.marks, ids'), verdict)
  {
    BulkDedup(st, Schedule(st.marks, ids), verdict);
    BulkDedup(st, Schedule(st.marks, ids'), verdict);
    ScheduleUnique(st.marks, ids, ids');
  }

  // ------------------------------------------------------------------ what a batch leaves

  function OpsOf(order: seq<Mark>, verdict: Verdict): seq<Op> {
    seq(|order|, i requires 0 <= i < |order| => Op(order[i].id, verdict))
  }

  /** A change mark stays a change mark until it is resolved. */
  lemma RunKeepsKinds(st: State, ops: seq<Op>, id: nat)
    requires id in Run(st, ops).marks
    ensures id in st.marks && Run(st, ops).marks[id].kind == st.marks[id].kind
  {
    RunClosedForm(st, ops);
  }

  /** A batch of change marks succeeds, and is the run of its verdicts. */
  lemma {:induction false} BulkIsRun(st: State, order: seq<Mark>, verdict: Verdict)
    requires forall m :: m in order ==> m.id in st.marks && st.marks[m.id].kind.IsChange()
    ensures BulkRun(st, order, verdict).Ok?
    ensures var b := BulkRun(st, order, verdict).value;
            State(b.text, b.marks) == Run(st, OpsOf(order, verdict))
  {
    if order != [] {
      var init, last := order[..|order| - 1], order[|order| - 1];
      BulkIsRun(st, init, verdict);
      assert last in order;
      assert OpsOf(order, verdict)[..|order| - 1] == OpsOf(init, verdict);
      if last.id in BulkRun(st, init, verdict).value.marks {
        RunKeepsKinds(st, OpsOf(init, verdict), last.id);
      }
    }
  }

  /** One selected mark that is not a change refuses the whole batch. */
  lemma {:induction false} BulkRefuses(st: State, order: seq<Mark>, verdict: Verdict, m: Mark)
    requires m in order && m.id in st.marks && !st.marks[m.id].kind.IsChange()
    ensures BulkRun(st, order, verdict).Err?
  {
    var init, last := order[..|order| - 1], order[|order| - 1];
    assert order == init + [last];
    if m in init {
      BulkRefuses(st, init, verdict, m);
    } else if BulkRun(st, init, verdict).Ok? {
      BulkKeepsNonChange(st, init, verdict, m.id);
    }
  }

  lemma {:induction false} BulkKeepsNonChange(st: State, order: seq<Mark>, verdict: Verdict, id: nat)
    requires BulkRun(st, order, verdict).Ok?
    requires id in st.marks && !st.marks[id].kind.IsChange()
    ensures var now := BulkRun(st, order, verdict).value.marks; id in now && !now[id].kind.IsChange()
  {
    if order != [] {
      BulkKeepsNonChange(st, order[..|order| - 1], verdict, id);
    }
  }

  /**
    A batch succeeds exactly when no requested mark is a comment or a secret, and then
    preserves the view that matches its verdict; if it names every change, the text it
    leaves is that view.
   */
  lemma BulkSettles(st: State, ids: seq<nat>, verdict: Verdict)
    ensures BulkRun(st, Schedule(st.marks, ids), verdict).Ok? <==>
            forall id <- ids :: id in st.marks ==> st.marks[id].kind.IsChange()
    ensures BulkRun(st, Schedule(st.marks, ids), verdict).Ok? ==>
              var b := BulkRun(st, Schedule(st.marks, ids), verdict).value;
              && (verdict.Accept? ==> Project(b.text, b.marks, Proposed) == Project(st.text, st.marks, Proposed)
                                      && Project(b.text, b.marks, Public) == Project(st.text, st.marks, Public))
              && (verdict.Reject? ==> Project(b.text, b.marks, Baseline) == Project(st.text, st.marks, Baseline))
              && ((forall id <- st.marks :: st.marks[id].kind.IsChange() ==> id in ids) ==>
                    b.text == Project(st.text, st.marks, if verdict.Accept? then Proposed else Baseline))
  {
    var order := Schedule(st.marks, ids);
    if bad :| bad in ids && bad in st.marks && !st.marks[bad].kind.IsChange() {
      ScheduleElements(st.marks, ids, st.marks[bad]);
      BulkRefuses(st, order, verdict, st.marks[bad]);
    } else {
      forall m | m in order ensures m.id in st.marks && st.marks[m.id].kind.IsChange() {
        ScheduleElements(st.marks, ids, m);
      }
      BulkIsRun(st, order, verdict);
      BulkViews(st, ids, verdict);
    }
  }

  lemma BulkViews(st: State, ids: seq<nat>, verdict: Verdict)
    ensures var after := Run(st, OpsOf(Schedule(st.marks, ids), verdict));
            && (verdict.Accept? ==> Project(after.text, after.marks, Proposed) == Project(st.text, st.marks, Proposed)
                                    && Project(after.text, after.marks, Public) == Project(st.text, st.marks, Public))
            && (verdict.Reject? ==> Project(after.text, after.marks, Baseline) == Project(st.text, st.marks, Baseline))
            && ((forall id <- st.marks :: st.marks[id].kind.IsChange() ==> id in ids) ==>
                  after.text == Project(st.text, st.marks, if verdict.Accept? then Proposed else Baseline))
  {
    var order := Schedule(st.marks, ids);
    var ops := OpsOf(order, verdict);
    if verdict.Accept? {
      RunPreservesView(st, ops, Accept, Proposed);
      RunPreservesView(st, ops, Accept, Public);
    } else {
      RunPreservesView(st, ops, Reject, Baseline);
    }
    if forall id <- st.marks :: st.marks[id].kind.IsChange() ==> id in ids {
      forall id | id in st.marks && st.marks[id].kind.IsChange() ensures Op(id, verdict) in ops {
        ScheduleElements(st.marks, ids, st.marks[id]);
        var i :| 0 <= i < |order| && order[i] == st.marks[id];
        assert ops[i] == Op(id, verdict);
      }
      ResolveEverything(st, ops, verdict);
    }
  }
}
