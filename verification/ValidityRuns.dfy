/**
  What every run of resolutions does to the validity of a document.

  In-bounds ranges and conflict-freedom survive every run. The orphan condition survives
  every run of accepts; a reject can break it, and `AnchorsSurvive` says exactly when.
 */
module ValidityRuns {
  import opened Wrappers
  import opened Marks
  import opened Survivors
  import opened Resolution
  import opened ResolutionRuns
  import opened Projection
  import opened ViewRuns
  import opened Validation

  lemma ShrunkInBounds(st: State, eff: map<nat, Verdict>)
    requires InBounds(|st.text|, st.marks)
    ensures InBounds(|Shrunk(st, eff).text|, Shrunk(st, eff).marks)
  {
    var gone := Gone(|st.text|, st.marks, eff);
    forall id | id in st.marks
      ensures Rank(gone, st.marks[id].range.start) <= Rank(gone, st.marks[id].range.end) <= Rank(gone, |st.text|)
    {
      RankMonotone(gone, st.marks[id].range.start, st.marks[id].range.end);
      RankMonotone(gone, st.marks[id].range.end, |st.text|);
    }
  }

  lemma ShrunkConflictFree(st: State, eff: map<nat, Verdict>)
    requires ConflictFree(|st.text|, st.marks)
    ensures ConflictFree(|Shrunk(st, eff).text|, Shrunk(st, eff).marks)
  {
    var gone := Gone(|st.text|, st.marks, eff);
    var now := Shrunk(st, eff);
    forall k: nat | k < |now.text| ensures !(Covered(now.marks, Insert, k) && Covered(now.marks, Delete, k)) {
      var c := SurvivorAt(gone, |st.text|, k);
      CoveredShrunk(st.marks, gone, eff.Keys, Insert, c);
      CoveredShrunk(st.marks, gone, eff.Keys, Delete, c);
      assert !(Covered(st.marks, Insert, c) && Covered(st.marks, Delete, c));
    }
  }

  /** Bounds and conflict-freedom are invariants of every run. */
  lemma RunKeepsStructure(st: State, ops: seq<Op>)
    ensures InBounds(|st.text|, st.marks) ==> InBounds(|Run(st, ops).text|, Run(st, ops).marks)
    ensures ConflictFree(|st.text|, st.marks) ==> ConflictFree(|Run(st, ops).text|, Run(st, ops).marks)
  {
    RunClosedForm(st, ops);
    var eff := Effective(st.marks, ops);
    if InBounds(|st.text|, st.marks) { ShrunkInBounds(st, eff); }
    if ConflictFree(|st.text|, st.marks) { ShrunkConflictFree(st, eff); }
  }

  // ------------------------------------------------------------------ comments

  /** Some character of `range` is neither removed nor still marked deleted. */
  predicate Anchored(marks: MarkSet, eff: map<nat, Verdict>, range: TextRange) {
    exists c :: range.start <= c < range.end && !Removed(marks, eff, c) && !StillCovered(marks, eff.Keys, Delete, c)
  }

  /** Every character of `range` is removed, which leaves a point pin. */
  predicate Collapses(marks: MarkSet, eff: map<nat, Verdict>, range: TextRange) {
    forall c :: range.start <= c < range.end ==> Removed(marks, eff, c)
  }

  /** What the caller can check: each comment keeps a visible character or loses all of them. */
  predicate AnchorsSurvive(marks: MarkSet, eff: map<nat, Verdict>) {
    forall id <- marks :: marks[id].kind.Comment? ==>
      Anchored(marks, eff, marks[id].range) || Collapses(marks, eff, marks[id].range)
  }

  lemma OrphanedOne(st: State, eff: map<nat, Verdict>, id: nat)
    requires InBounds(|st.text|, st.marks)
    requires id in st.marks && id !in eff
    ensures FullyDeleted(Shrunk(st, eff).marks, Shrunk(st, eff).marks[id].range) <==>
            !Anchored(st.marks, eff, st.marks[id].range) && !Collapses(st.marks, eff, st.marks[id].range)
  {
    var range := st.marks[id].range;
    if Anchored(st.marks, eff, range) {
      AnchoredStays(st, eff, id);
    } else if Collapses(st.marks, eff, range) {
      CollapsedIsEmpty(st, eff, id);
    } else {
      OrphanedStays(st, eff, id);
    }
  }

  lemma AnchoredStays(st: State, eff: map<nat, Verdict>, id: nat)
    requires InBounds(|st.text|, st.marks)
    requires id in st.marks && id !in eff && Anchored(st.marks, eff, st.marks[id].range)
    ensures !FullyDeleted(Shrunk(st, eff).marks, Shrunk(st, eff).marks[id].range)
  {
    var gone, m := Gone(|st.text|, st.marks, eff), st.marks[id];
    var c :|
      m.range.start <= c < m.range.end
      && !Removed(st.marks, eff, c)
      && !StillCovered(st.marks, eff.Keys, Delete, c);
    RankCovers(gone, m, c);
    CoveredShrunk(st.marks, gone, eff.Keys, Delete, c);
  }

  lemma OrphanedStays(st: State, eff: map<nat, Verdict>, id: nat)
    requires InBounds(|st.text|, st.marks) && id in st.marks && id !in eff
    requires !Anchored(st.marks, eff, st.marks[id].range) && !Collapses(st.marks, eff, st.marks[id].range)
    ensures FullyDeleted(Shrunk(st, eff).marks, Shrunk(st, eff).marks[id].range)
  {
    var gone, now := Gone(|st.text|, st.marks, eff), Shrunk(st, eff);
    var m, range := st.marks[id], now.marks[id].range;
    var c :| m.range.start <= c < m.range.end && !Removed(st.marks, eff, c);
    RankCovers(gone, m, c);
    ShrunkInBounds(st, eff);
    forall k | range.start <= k < range.end ensures Covered(now.marks, Delete, k) {
      var s := SurvivorAt(gone, |st.text|, k);
      RankCovers(gone, m, s);
      CoveredShrunk(st.marks, gone, eff.Keys, Delete, s);
    }
  }

  lemma CollapsedIsEmpty(st: State, eff: map<nat, Verdict>, id: nat)
    requires InBounds(|st.text|, st.marks)
    requires id in st.marks && id !in eff && Collapses(st.marks, eff, st.marks[id].range)
    ensures Shrunk(st, eff).marks[id].range.IsEmpty()
  {
    var gone := Gone(|st.text|, st.marks, eff);
    var range := Shrunk(st, eff).marks[id].range;
    if !range.IsEmpty() {
      ShrunkInBounds(st, eff);
      var s := SurvivorAt(gone, |st.text|, range.start);
      RankCovers(gone, st.marks[id], s);
    }
  }

  /** A run keeps a valid document valid exactly when no comment anchor is orphaned by it. */
  lemma RunKeepsValidIff(st: State, ops: seq<Op>)
    requires Valid(st.text, st.marks)
    ensures Valid(Run(st, ops).text, Run(st, ops).marks) <==> AnchorsSurvive(st.marks, Effective(st.marks, ops))
  {
    RunClosedForm(st, ops);
    RunKeepsStructure(st, ops);
    var eff := Effective(st.marks, ops);
    var now := Shrunk(st, eff);
    forall id | id in st.marks && st.marks[id].kind.Comment?
      ensures id in now.marks
      ensures FullyDeleted(now.marks, now.marks[id].range) <==>
              !(Anchored(st.marks, eff, st.marks[id].range) || Collapses(st.marks, eff, st.marks[id].range))
    {
      OrphanedOne(st, eff, id);
    }
    assert NoOrphans(now.marks) <==> AnchorsSurvive(st.marks, eff);
  }

  /** Accepting any changes, in any order, keeps a fully valid document fully valid. */
  lemma AcceptsKeepValid(st: State, ops: seq<Op>)
    requires Valid(st.text, st.marks)
    requires forall op :: op in ops ==> op.verdict == Accept
    ensures Valid(Run(st, ops).text, Run(st, ops).marks)
  {
    var eff := Effective(st.marks, ops);
    UniformRun(st.marks, ops, Accept);
    forall id | id in st.marks && st.marks[id].kind.Comment?
      ensures Anchored(st.marks, eff, st.marks[id].range) || Collapses(st.marks, eff, st.marks[id].range)
    {
      var range := st.marks[id].range;
      if !range.IsEmpty() {
        var c :| range.start <= c < range.end && !Covered(st.marks, Delete, c);
        HidesSplits(st.marks, eff, Accept, Proposed, c);
        assert range.Covers(c);
      }
    }
    RunKeepsValidIff(st, ops);
  }

  /**
    Rejecting is different. A comment over "ab" where "a" is a pending insertion and "b" a
    pending deletion is anchored; rejecting the insertion leaves it over deleted text only.
   */
  function Example(): State {
    State("ab", map[
      1 := Mark(1, TextRange(0, 1), Insert, "a", 1, None),
      2 := Mark(2, TextRange(1, 2), Delete, "a", 2, None),
      3 := Mark(3, TextRange(0, 2), Comment, "a", 3, None)])
  }

  lemma ExampleIsValid()
    ensures Valid(Example().text, Example().marks)
  {
    var marks := Example().marks;
    assert !Covered(marks, Delete, 0);
    assert !FullyDeleted(marks, marks[3].range);
  }

  lemma ExampleLosesItsAnchor()
    ensures !AnchorsSurvive(Example().marks, map[1 := Reject])
  {
    var marks, eff := Example().marks, map[1 := Reject];
    assert Removed(marks, eff, 0) by { assert 1 in eff; }
    assert StillCovered(marks, eff.Keys, Delete, 1) by { assert 2 in marks; }
    assert !Removed(marks, eff, 1);
    assert !Anchored(marks, eff, marks[3].range);
    assert 3 in marks;
  }

  lemma RejectCanOrphan()
    ensures exists st: State, op: Op ::
              Valid(st.text, st.marks) && op.verdict == Reject && !Valid(Run(st, [op]).text, Run(st, [op]).marks)
  {
    var st, op := Example(), Op(1, Reject);
    ExampleIsValid();
    ExampleLosesItsAnchor();
    assert [op][..|[op]| - 1] == [];
    assert Effective(st.marks, [op]) == map[1 := Reject];
    RunKeepsValidIff(st, [op]);
  }
}
