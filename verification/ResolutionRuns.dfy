/**
  What a whole run of accepts and rejects does to a document, whatever the order.

  A run is any sequence of `Document::resolve` calls; a call that fails leaves the document
  alone. `Effective` keeps the first verdict given for each change mark, and `Shrunk` is the
  document those verdicts describe, computed from the original without replaying anything.
 */
module ResolutionRuns {
  import opened Arithmetic
  import opened Marks
  import opened Survivors
  import opened Resolution

  datatype State = State(text: string, marks: MarkSet)

  datatype Op = Op(id: nat, verdict: Verdict)

  /** One `Document::resolve` call (crates/nisaba-core/src/document.rs). */
  function Apply(st: State, op: Op): State {
    match Resolved(st.text, st.marks, op.id, op.verdict)
    case Ok(outcome) => State(outcome.text, outcome.marks)
    case Err(_) => st
  }

  function Run(st: State, ops: seq<Op>): State {
    if ops == [] then st
    else Apply(Run(st, ops[..|ops| - 1]), ops[|ops| - 1])
  }

  /** The first verdict passed on each change mark. */
  function Effective(marks: MarkSet, ops: seq<Op>): (eff: map<nat, Verdict>)
    ensures forall id :: id in eff ==> id in marks && marks[id].kind.IsChange()
  {
    if ops == [] then map[]
    else
      var before := Effective(marks, ops[..|ops| - 1]);
      var op := ops[|ops| - 1];
      if op.id in before || op.id !in marks || !marks[op.id].kind.IsChange() then before
      else before[op.id := op.verdict]
  }

  /** Character `c` is covered by a mark whose verdict removes text. */
  predicate Removed(marks: MarkSet, eff: map<nat, Verdict>, c: nat) {
    exists id <- eff :: id in marks && RemovesText(marks[id].kind, eff[id]) && marks[id].range.Covers(c)
  }

  function Gone(n: nat, marks: MarkSet, eff: map<nat, Verdict>): (r: seq<bool>)
    ensures |r| == n
  {
    seq(n, c requires 0 <= c < n => Removed(marks, eff, c))
  }

  function RankMark(gone: seq<bool>, m: Mark): Mark {
    m.(range := TextRange(Rank(gone, m.range.start), Rank(gone, m.range.end)))
  }

  function ShrunkMarks(marks: MarkSet, gone: seq<bool>, done: set<nat>): (r: MarkSet)
    ensures r.Keys == marks.Keys - done
  {
    map id | id in marks && id !in done :: RankMark(gone, marks[id])
  }

  /** The original text without the removed characters, and every unresolved mark re-ranked. */
  function Shrunk(st: State, eff: map<nat, Verdict>): State {
    var gone := Gone(|st.text|, st.marks, eff);
    State(Kept(st.text, gone), ShrunkMarks(st.marks, gone, eff.Keys))
  }

  // ------------------------------------------------------------------ one more step

  /** Clamping a position to the text commutes with re-ranking it. */
  lemma RankClamp(gone: seq<bool>, p: nat)
    ensures Min(Rank(gone, p), Rank(gone, |gone|)) == Rank(gone, Min(p, |gone|))
  {
    if p <= |gone| {
      RankMonotone(gone, p, |gone|);
    } else {
      RankBeyond(gone, p);
    }
  }

  lemma EraseClamp(gone: seq<bool>, s: nat, e: nat)
    ensures Erase(gone, s, e) == Erase(gone, Min(s, |gone|), Min(e, |gone|))
  {
  }

  lemma {:induction false} RankFlat(gone: seq<bool>, s: nat, e: nat, c: nat)
    requires s <= c < e <= |gone| && Rank(gone, s) == Rank(gone, e)
    ensures gone[c]
  {
    RankMonotone(gone, s, c);
    RankMonotone(gone, c, e);
    RankMonotone(gone, c + 1, e);
  }

  /** The position map of the source is exactly re-ranking after one more range is erased. */
  lemma RemapIsRank(gone: seq<bool>, s: nat, e: nat, p: Position)
    requires s <= e <= |gone|
    requires Rank(gone, s) < Rank(gone, e) <= U32_MAX
    ensures RemapPosition(Rank(gone, p), Rank(gone, s), Rank(gone, e)) == Rank(Erase(gone, s, e), p)
  {
    RankErase(gone, s, e, p);
    if p <= s {
      RankMonotone(gone, p, s);
    } else if p <= e {
      RankMonotone(gone, s, p);
      RankMonotone(gone, p, e);
    } else {
      RankMonotone(gone, e, p);
    }
  }

  /** Erasing a range whose characters are all gone already changes nothing. */
  lemma EraseNothing(gone: seq<bool>, s: nat, e: nat)
    requires Rank(gone, Min(s, |gone|)) >= Rank(gone, Min(e, |gone|))
    ensures Erase(gone, s, e) == gone
  {
    var s', e' := Min(s, |gone|), Min(e, |gone|);
    forall c | 0 <= c < |gone| ensures Erase(gone, s, e)[c] == gone[c] {
      if s <= c < e {
        RankMonotone(gone, s', e');
        RankFlat(gone, s', e', c);
      }
    }
  }

  lemma GoneOneMore(n: nat, marks: MarkSet, eff: map<nat, Verdict>, id: nat, verdict: Verdict)
    requires id in marks && id !in eff
    ensures Gone(n, marks, eff[id := verdict]) ==
            if RemovesText(marks[id].kind, verdict)
            then Erase(Gone(n, marks, eff), marks[id].range.start, marks[id].range.end)
            else Gone(n, marks, eff)
  {
    var eff' := eff[id := verdict];
    forall c: nat | c < n
      ensures Removed(marks, eff', c) <==>
              Removed(marks, eff, c) || (RemovesText(marks[id].kind, verdict) && marks[id].range.Covers(c))
    {
      if Removed(marks, eff, c) {
        var w :| w in eff && w in marks && RemovesText(marks[w].kind, eff[w]) && marks[w].range.Covers(c);
        assert w in eff' && eff'[w] == eff[w];
      }
      if RemovesText(marks[id].kind, verdict) && marks[id].range.Covers(c) {
        assert id in eff';
      }
    }
  }

  /** Remapping the marks of a shrunk document re-ranks the original ones. */
  lemma RemapShrunk(marks: MarkSet, gone: seq<bool>, done: set<nat>, id: nat, s: nat, e: nat)
    requires s <= e <= |gone|
    requires Rank(gone, s) < Rank(gone, e) <= U32_MAX
    ensures RemapOthers(ShrunkMarks(marks, gone, done), id, Rank(gone, s), Rank(gone, e))
         == ShrunkMarks(marks, Erase(gone, s, e), done + {id})
  {
    forall k | k in marks && k !in done && k != id
      ensures RemapMark(RankMark(gone, marks[k]), Rank(gone, s), Rank(gone, e)) == RankMark(Erase(gone, s, e), marks[k])
    {
      RemapIsRank(gone, s, e, marks[k].range.start);
      RemapIsRank(gone, s, e, marks[k].range.end);
    }
  }

  /** The destructive path on a shrunk document. */
  lemma RemovalShrunk(st: State, eff: map<nat, Verdict>, id: nat, s: nat, e: nat)
    requires id in st.marks
    requires s == Min(st.marks[id].range.start, |st.text|) && e == Min(st.marks[id].range.end, |st.text|)
    requires var gone := Gone(|st.text|, st.marks, eff); Rank(gone, s) < Rank(gone, e)
    ensures var gone := Gone(|st.text|, st.marks, eff);
            var gone' := Erase(gone, st.marks[id].range.start, st.marks[id].range.end);
            var now := Shrunk(st, eff);
            && Rank(gone, e) <= |now.text|
            && Cut(now.text, Rank(gone, s), Rank(gone, e)) == Kept(st.text, gone')
            && RemapOthers(now.marks, id, Rank(gone, s), Rank(gone, e)) == ShrunkMarks(st.marks, gone', eff.Keys + {id})
  {
    var gone := Gone(|st.text|, st.marks, eff);
    if e < s { RankMonotone(gone, e, s); }
    EraseClamp(gone, st.marks[id].range.start, st.marks[id].range.end);
    KeptErase(st.text, gone, s, e);
    RemapShrunk(st.marks, gone, eff.Keys, id, s, e);
  }

  /** Resolving a mark of a shrunk document adds its verdict to the description. */
  lemma ApplyShrunk(st: State, eff: map<nat, Verdict>, op: Op)
    requires op.id in st.marks && st.marks[op.id].kind.IsChange() && op.id !in eff
    ensures Apply(Shrunk(st, eff), op) == Shrunk(st, eff[op.id := op.verdict])
  {
    var gone := Gone(|st.text|, st.marks, eff);
    var m := st.marks[op.id];
    var s, e := Min(m.range.start, |st.text|), Min(m.range.end, |st.text|);
    GoneOneMore(|st.text|, st.marks, eff, op.id, op.verdict);
    RankClamp(gone, m.range.start);
    RankClamp(gone, m.range.end);
    assert eff[op.id := op.verdict].Keys == eff.Keys + {op.id};
    if RemovesText(m.kind, op.verdict) && Rank(gone, s) < Rank(gone, e) {
      RemovalShrunk(st, eff, op.id, s, e);
    } else {
      if RemovesText(m.kind, op.verdict) {
        EraseNothing(gone, m.range.start, m.range.end);
      }
      assert ShrunkMarks(st.marks, gone, eff.Keys) - {op.id} == ShrunkMarks(st.marks, gone, eff.Keys + {op.id});
    }
  }

  /** A verdict on an already resolved, unknown or non-change mark is refused. */
  lemma ApplyRefused(st: State, eff: map<nat, Verdict>, op: Op)
    requires op.id in eff || op.id !in st.marks || !st.marks[op.id].kind.IsChange()
    ensures Apply(Shrunk(st, eff), op) == Shrunk(st, eff)
  {
  }

  // ------------------------------------------------------------------ whole runs

  lemma ShrunkNothing(st: State)
    ensures Shrunk(st, map[]) == st
  {
    var gone := Gone(|st.text|, st.marks, map[]);
    assert gone == Nothing(|st.text|);
    KeptNothing(st.text, |st.text|);
    forall id | id in st.marks ensures RankMark(gone, st.marks[id]) == st.marks[id] {
      RankNothing(|st.text|, st.marks[id].range.start);
      RankNothing(|st.text|, st.marks[id].range.end);
    }
  }

  /**
    For every run, with failing calls, repeated ids, overlapping, inverted and out-of-bounds
    marks allowed: the final text is the original minus the characters of the marks resolved
    destructively, and every unresolved endpoint drops by the removed characters below it.
   */
  lemma {:induction false} RunClosedForm(st: State, ops: seq<Op>)
    ensures Run(st, ops) == Shrunk(st, Effective(st.marks, ops))
  {
    if ops == [] {
      ShrunkNothing(st);
    } else {
      var init, op := ops[..|ops| - 1], ops[|ops| - 1];
      RunClosedForm(st, init);
      var eff := Effective(st.marks, init);
      if op.id in eff || op.id !in st.marks || !st.marks[op.id].kind.IsChange() {
        ApplyRefused(st, eff, op);
      } else {
        ApplyShrunk(st, eff, op);
      }
    }
  }

  predicate DistinctIds(ops: seq<Op>) {
    forall i, j :: 0 <= i < j < |ops| ==> ops[i].id != ops[j].id
  }

  lemma {:induction false} EffectiveOfDistinct(marks: MarkSet, ops: seq<Op>, id: nat)
    requires DistinctIds(ops)
    ensures id in Effective(marks, ops) <==>
            id in marks && marks[id].kind.IsChange() && exists v :: Op(id, v) in ops
    ensures id in Effective(marks, ops) ==> Op(id, Effective(marks, ops)[id]) in ops
  {
    if ops != [] {
      var init, op := ops[..|ops| - 1], ops[|ops| - 1];
      EffectiveOfDistinct(marks, init, id);
      assert ops == init + [op];
    }
  }

  /** Every order of the same verdicts reaches the same text and the same marks. */
  lemma RunsConverge(st: State, ops: seq<Op>, ops': seq<Op>)
    requires DistinctIds(ops) && DistinctIds(ops')
    requires forall op :: op in ops <==> op in ops'
    ensures Run(st, ops) == Run(st, ops')
  {
    var eff, eff' := Effective(st.marks, ops), Effective(st.marks, ops');
    forall id: nat ensures id in eff <==> id in eff' {
      EffectiveOfDistinct(st.marks, ops, id);
      EffectiveOfDistinct(st.marks, ops', id);
    }
    forall id | id in eff ensures eff[id] == eff'[id] {
      EffectiveOfDistinct(st.marks, ops, id);
      EffectiveOfDistinct(st.marks, ops', id);
      var i :| 0 <= i < |ops| && ops[i] == Op(id, eff[id]);
      assert Op(id, eff'[id]) in ops;
      var j :| 0 <= j < |ops| && ops[j] == Op(id, eff'[id]);
    }
    assert eff == eff';
    RunClosedForm(st, ops);
    RunClosedForm(st, ops');
  }
}
