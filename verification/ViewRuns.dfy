/**
  Resolution commutes with projection, for whole runs.

  Accepting changes never alters what the proposed and public views show, rejecting never
  alters the baseline view, and resolving everything turns the view into the text itself.
 */
module ViewRuns {
  import opened Marks
  import opened Survivors
  import opened Resolution
  import opened ResolutionRuns
  import opened Projection

  /** A mark not yet resolved covers character `c`. */
  predicate StillCovered(marks: MarkSet, done: set<nat>, kind: MarkKind, c: int) {
    exists id <- marks :: id !in done && marks[id].kind == kind && marks[id].range.Covers(c)
  }

  predicate StillHides(marks: MarkSet, done: set<nat>, view: View, c: int) {
    match view
    case Baseline => StillCovered(marks, done, Insert, c)
    case Proposed => StillCovered(marks, done, Delete, c)
    case Public => StillCovered(marks, done, Delete, c) || StillCovered(marks, done, Secret, c)
    case Editor => false
  }

  /** A re-ranked range covers a surviving character exactly where the original range did. */
  lemma RankCovers(gone: seq<bool>, m: Mark, c: nat)
    requires c < |gone| && !gone[c]
    ensures RankMark(gone, m).range.Covers(Rank(gone, c)) <==> m.range.Covers(c)
  {
    RankSeparates(gone, m.range.start, c);
    RankSeparates(gone, m.range.end, c);
  }

  lemma CoveredShrunk(marks: MarkSet, gone: seq<bool>, done: set<nat>, kind: MarkKind, c: nat)
    requires c < |gone| && !gone[c]
    ensures Covered(ShrunkMarks(marks, gone, done), kind, Rank(gone, c)) <==> StillCovered(marks, done, kind, c)
  {
    var after := ShrunkMarks(marks, gone, done);
    if Covered(after, kind, Rank(gone, c)) {
      var id :| id in after && after[id].kind == kind && after[id].range.Covers(Rank(gone, c));
      RankCovers(gone, marks[id], c);
    }
    if StillCovered(marks, done, kind, c) {
      var id :| id in marks && id !in done && marks[id].kind == kind && marks[id].range.Covers(c);
      RankCovers(gone, marks[id], c);
      assert id in after;
    }
  }

  /** The view of a shrunk document, read off the original. */
  lemma ProjectShrunk(st: State, eff: map<nat, Verdict>, view: View, hidden: seq<bool>)
    requires |hidden| == |st.text|
    requires forall c :: 0 <= c < |st.text| ==>
               hidden[c] == (Removed(st.marks, eff, c) || StillHides(st.marks, eff.Keys, view, c))
    ensures Project(Shrunk(st, eff).text, Shrunk(st, eff).marks, view) == Kept(st.text, hidden)
  {
    var gone := Gone(|st.text|, st.marks, eff);
    var now := Shrunk(st, eff);
    var more := Hidden(|now.text|, now.marks, view);
    forall c: nat | c < |st.text| ensures InEither(gone, more, hidden, c) {
      if !gone[c] {
        KeptAt(st.text, gone, |st.text|, c);
        CoveredShrunk(st.marks, gone, eff.Keys, Insert, c);
        CoveredShrunk(st.marks, gone, eff.Keys, Delete, c);
        CoveredShrunk(st.marks, gone, eff.Keys, Secret, c);
      }
    }
    KeptTwice(st.text, gone, more, hidden, |st.text|);
  }

  /** Every verdict in effect is `verdict`. */
  predicate Uniform(eff: map<nat, Verdict>, verdict: Verdict) {
    forall id <- eff :: eff[id] == verdict
  }

  lemma {:induction false} UniformRun(marks: MarkSet, ops: seq<Op>, verdict: Verdict)
    requires forall op :: op in ops ==> op.verdict == verdict
    ensures Uniform(Effective(marks, ops), verdict)
  {
    if ops != [] {
      UniformRun(marks, ops[..|ops| - 1], verdict);
      assert ops[|ops| - 1] in ops;
    }
  }

  predicate Kindred(view: View, verdict: Verdict) {
    match verdict
    case Accept => view.Proposed? || view.Public?
    case Reject => view.Baseline?
  }

  /** What the verdicts removed is what the view was hiding through the resolved marks. */
  lemma HidesSplits(marks: MarkSet, eff: map<nat, Verdict>, verdict: Verdict, view: View, c: nat)
    requires Uniform(eff, verdict) && Kindred(view, verdict)
    requires forall id <- eff :: id in marks && marks[id].kind.IsChange()
    ensures Hides(marks, view, c) <==> Removed(marks, eff, c) || StillHides(marks, eff.Keys, view, c)
  {
    var kind := if verdict.Accept? then Delete else Insert;
    assert Covered(marks, kind, c) <==> Removed(marks, eff, c) || StillCovered(marks, eff.Keys, kind, c) by {
      if Covered(marks, kind, c) {
        var id :| id in marks && marks[id].kind == kind && marks[id].range.Covers(c);
        if id in eff { assert RemovesText(marks[id].kind, eff[id]); }
      }
      if Removed(marks, eff, c) {
        var id :| id in eff && id in marks && RemovesText(marks[id].kind, eff[id]) && marks[id].range.Covers(c);
        assert eff[id] == verdict;
      }
    }
    assert Covered(marks, Secret, c) <==> StillCovered(marks, eff.Keys, Secret, c);
  }

  lemma ShrunkPreservesView(st: State, eff: map<nat, Verdict>, verdict: Verdict, view: View)
    requires Uniform(eff, verdict) && Kindred(view, verdict)
    requires forall id <- eff :: id in st.marks && st.marks[id].kind.IsChange()
    ensures Project(Shrunk(st, eff).text, Shrunk(st, eff).marks, view) == Project(st.text, st.marks, view)
  {
    var hidden := Hidden(|st.text|, st.marks, view);
    forall c | 0 <= c < |st.text|
      ensures hidden[c] == (Removed(st.marks, eff, c) || StillHides(st.marks, eff.Keys, view, c))
    {
      HidesSplits(st.marks, eff, verdict, view, c);
    }
    ProjectShrunk(st, eff, view, hidden);
  }

  /** Any run of accepts preserves Proposed and Public, any run of rejects preserves Baseline. */
  lemma RunPreservesView(st: State, ops: seq<Op>, verdict: Verdict, view: View)
    requires forall op :: op in ops ==> op.verdict == verdict
    requires Kindred(view, verdict)
    ensures var after := Run(st, ops);
            Project(after.text, after.marks, view) == Project(st.text, st.marks, view)
  {
    RunClosedForm(st, ops);
    UniformRun(st.marks, ops, verdict);
    ShrunkPreservesView(st, Effective(st.marks, ops), verdict, view);
  }

  predicate NoChanges(marks: MarkSet) {
    forall id <- marks :: !marks[id].kind.IsChange()
  }

  lemma ViewOfSettled(st: State, view: View)
    requires NoChanges(st.marks) && (view.Proposed? || view.Baseline?)
    ensures Project(st.text, st.marks, view) == st.text
  {
    assert Hidden(|st.text|, st.marks, view) == Nothing(|st.text|);
    KeptNothing(st.text, |st.text|);
  }

  lemma {:induction false} EffectiveHas(marks: MarkSet, ops: seq<Op>, i: nat)
    requires i < |ops| && ops[i].id in marks && marks[ops[i].id].kind.IsChange()
    ensures ops[i].id in Effective(marks, ops)
  {
    if i < |ops| - 1 { EffectiveHas(marks, ops[..|ops| - 1], i); }
  }

  /**
    Passing one verdict on every change mark, in any order and with any number of extra
    calls, leaves exactly the proposed text (accept) or the baseline text (reject).
   */
  lemma ResolveEverything(st: State, ops: seq<Op>, verdict: Verdict)
    requires forall op :: op in ops ==> op.verdict == verdict
    requires forall id <- st.marks :: st.marks[id].kind.IsChange() ==> Op(id, verdict) in ops
    ensures Run(st, ops).text == Project(st.text, st.marks, if verdict.Accept? then Proposed else Baseline)
    ensures NoChanges(Run(st, ops).marks)
  {
    var view := if verdict.Accept? then Proposed else Baseline;
    var after := Run(st, ops);
    RunClosedForm(st, ops);
    forall id | id in after.marks ensures !after.marks[id].kind.IsChange() {
      if st.marks[id].kind.IsChange() {
        var i :| 0 <= i < |ops| && ops[i] == Op(id, verdict);
        EffectiveHas(st.marks, ops, i);
      }
    }
    ViewOfSettled(after, view);
    RunPreservesView(st, ops, verdict, view);
  }
}
