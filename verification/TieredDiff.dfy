/**
  The tiered text diff (`diff_chars`, `diff_region`, `refine_chars` in
  crates/nisaba-core/src/review.rs).

  Byte offsets of the source are character offsets here; every slice it takes lies on
  character boundaries.
 */
module TieredDiff {
  import opened Lcs
  import opened EditScripts
  import opened Hirschberg
  import opened ChangeLists
  import opened TokenScripts
  import opened Refinement

  // ------------------------------------------------------------------ emitting

  /** One run of a character script, as a change. */
  function ChangeOf(op: DiffOp, old_: string, i: nat, new_: string, j: nat): Change
    requires (!op.Insert? ==> i + op.n <= |old_|) && (!op.Delete? ==> j + op.n <= |new_|)
  {
    match op
    case Equal(n) => Same(old_[i..i + n])
    case Delete(n) => Deleted(old_[i..i + n])
    case Insert(n) => Inserted(new_[j..j + n])
  }

  lemma AddsChange(r: seq<Change>, op: DiffOp, old_: string, i: nat, new_: string, j: nat)
    requires Merged(r) && i <= |old_| && j <= |new_|
    requires (!op.Insert? ==> i + op.n <= |old_|) && (!op.Delete? ==> j + op.n <= |new_|)
    requires op.Equal? ==> Match(old_, new_, i, j, op.n)
    ensures var i', j' := if op.Insert? then i else i + op.n, if op.Delete? then j else j + op.n;
            Adds(PushChange(r, ChangeOf(op, old_, i, new_, j)), r, old_[i..i'], new_[j..j'])
  {
    AddsOne(r, ChangeOf(op, old_, i, new_, j));
    if op.Equal? { MatchSlices(old_, new_, i, j, op.n); }
    assert old_[i..i] == [] && new_[j..j] == [];
  }

  lemma AddsRun(r: seq<Change>, out: seq<Change>, ops: seq<DiffOp>, k: nat, old_: string, new_: string)
    requires k < |ops| && Script(ops, old_, new_, |old_|, |new_|)
    requires OldCursor(ops, k) <= |old_| && NewCursor(ops, k) <= |new_|
    requires Adds(r, out, old_[..OldCursor(ops, k)], new_[..NewCursor(ops, k)])
    ensures OldCursor(ops, k + 1) <= |old_| && NewCursor(ops, k + 1) <= |new_|
    ensures Adds(PushChange(r, ChangeOf(ops[k], old_, OldCursor(ops, k), new_, NewCursor(ops, k))),
                 out, old_[..OldCursor(ops, k + 1)], new_[..NewCursor(ops, k + 1)])
  {
    var i, j := OldCursor(ops, k), NewCursor(ops, k);
    RunFits(ops, k, old_, new_);
    AddsChange(r, ops[k], old_, i, new_, j);
    AddsThen(PushChange(r, ChangeOf(ops[k], old_, i, new_, j)), r, out,
             old_, i, OldCursor(ops, k + 1), new_, j, NewCursor(ops, k + 1));
  }

  /** With nothing on one side there is nothing to keep. */
  lemma OneSideRefined(r: seq<Change>, p: nat, q: nat, old_: string, new_: string)
    requires old_ == [] || new_ == []
    ensures Refined(r, p, q, old_, new_, Char)
  {
    var ops := [Delete(|old_|), Insert(|new_|)];
    assert ScriptTo(ops, 1, old_, new_, |old_|, 0) by { assert ScriptTo(ops, 0, old_, new_, 0, 0); }
    assert Equals(ops) == 0 by { assert EqualsTo(ops, 1) == EqualsTo(ops, 0) == 0; }
    assert CharsRefined(r, p, q, old_, new_, ops);
  }

  lemma OneSideDivided(out: seq<Change>, c: Change, old_: string, new_: string)
    requires !c.Same? && (old_ == [] || new_ == [])
    ensures Divided(PushChange(out, c), out, old_, new_, Char)
    ensures SameChars(PushChange(out, c)) == SameChars(out) + LcsLen(old_, new_)
  {
    OneSideRefined(PushChange(out, c), |OldSide(out)|, |NewSide(out)|, old_, new_);
    PushSameChars(out, c);
    if EndsSame(out) && Apart(out) { PushApart(out, c); }
  }

  lemma SmallEnough(m: nat, n: nat)
    requires m + n <= REFINE_LIMIT_CHARS
    ensures m * n <= DIFF_WORK_LIMIT
  {
    MulMonotone(m, n, REFINE_LIMIT_CHARS, REFINE_LIMIT_CHARS);
  }

  /**
    The characters of two regions, by a script that keeps the most: its equal runs are kept in
    place, no other character is, and neighbouring changes share none.
   */
  method RefineChars(old_: string, new_: string, out: seq<Change>) returns (r: seq<Change>)
    requires Merged(out)
    ensures Adds(r, out, old_, new_)
    ensures KeepsRunsFull(r, out, old_, new_)
    ensures Divided(r, out, old_, new_, Char)
    ensures |old_| * |new_| <= DIFF_WORK_LIMIT ==> SameChars(r) == SameChars(out) + LcsLen(old_, new_)
  {
    if old_ == [] {
      AddsOne(out, Inserted(new_));
      if EndsFull(out) && new_ != [] { OneFull(out, Inserted(new_)); }
      OneSideDivided(out, Inserted(new_), old_, new_);
      return PushChange(out, Inserted(new_));
    }
    if new_ == [] {
      AddsOne(out, Deleted(old_));
      if EndsFull(out) { OneFull(out, Deleted(old_)); }
      OneSideDivided(out, Deleted(old_), old_, new_);
      return PushChange(out, Deleted(old_));
    }
    var ops, _ := DiffSeq(old_, new_);
    r := RefineRuns(old_, new_, ops, out);
    if |old_| + |new_| <= REFINE_LIMIT_CHARS { SmallEnough(|old_|, |new_|); }
    assert CharsRefined(r, |OldSide(out)|, |NewSide(out)|, old_, new_, ops);
  }

  /** The list ends as the first `k` runs of the script do. */
  ghost predicate EndsLike(r: seq<Change>, old_: string, new_: string, ops: seq<DiffOp>, k: nat)
    requires k <= |ops|
  {
    if k == 0 || ops[k - 1].Equal? then EndsSame(r)
    else
      var x, y := Part(old_, OldCursor(ops, k - 1), OldCursor(ops, k)), Part(new_, NewCursor(ops, k - 1),
        NewCursor(ops, k));
      r != [] && r[|r| - 1] == if ops[k - 1].Delete? then Deleted(x) else Inserted(y)
  }

  /** The change at `k` is apart from a change before it. */
  lemma NextIsApart(old_: string, new_: string, ops: seq<DiffOp>, k: nat)
    requires 0 < k < |ops| && Script(ops, old_, new_, |old_|, |new_|) && Compact(ops)
    requires Equals(ops) == LcsLen(old_, new_) && !ops[k - 1].Equal? && !ops[k].Equal?
    ensures var x, y := Part(old_, OldCursor(ops, k - 1), OldCursor(ops, k + 1)),
                        Part(new_, NewCursor(ops, k - 1), NewCursor(ops, k + 1));
            NoCommon(x, y) && NoCommon(y, x)
  {
    RunFits(ops, k - 1, old_, new_);
    RunFits(ops, k, old_, new_);
    var i, j := OldCursor(ops, k - 1), NewCursor(ops, k - 1);
    forall s, t | i <= s < OldCursor(ops, k + 1) && j <= t < NewCursor(ops, k + 1) ensures old_[s] != new_[t] {
      NeighboursShareNothing(ops, k, old_, new_, s, t);
    }
    PartsShareNothing(old_, new_, i, OldCursor(ops, k + 1), j, NewCursor(ops, k + 1));
  }

  lemma PartsShareNothing(old_: string, new_: string, i: nat, i': nat, j: nat, j': nat)
    requires i <= i' <= |old_| && j <= j' <= |new_|
    requires forall s, t :: i <= s < i' && j <= t < j' ==> old_[s] != new_[t]
    ensures NoCommon(Part(old_, i, i'), Part(new_, j, j')) && NoCommon(Part(new_, j, j'), Part(old_, i, i'))
  {
    var x, y := old_[i..i'], new_[j..j'];
    forall s, t | 0 <= s < |x| && 0 <= t < |y| ensures x[s] != y[t] {
      assert old_[i + s] != new_[j + t];
    }
  }

  lemma ApartStep(r: seq<Change>, old_: string, new_: string, ops: seq<DiffOp>, k: nat, c: Change)
    requires k < |ops| && Script(ops, old_, new_, |old_|, |new_|) && Compact(ops) && Equals(ops) == LcsLen(old_, new_)
    requires OldCursor(ops, k + 1) <= |old_| && NewCursor(ops, k + 1) <= |new_|
    requires c == ChangeOf(ops[k], old_, OldCursor(ops, k), new_, NewCursor(ops, k))
    requires Apart(r) && EndsLike(r, old_, new_, ops, k)
    ensures Apart(PushChange(r, c)) && EndsLike(PushChange(r, c), old_, new_, ops, k + 1)
  {
    var i, j := OldCursor(ops, k), NewCursor(ops, k);
    if ops[k].Equal? {
      PushApart(r, c);
    } else if k == 0 || ops[k - 1].Equal? {
      PushApart(r, c);
      assert PushChange(r, c) == r + [c];
    } else {
      NextIsApart(old_, new_, ops, k);
      assert ops[k].Delete? ==> Part(old_, OldCursor(ops, k - 1), OldCursor(ops, k + 1)) == c.text;
      assert ops[k].Insert? ==> Part(new_, NewCursor(ops, k - 1), NewCursor(ops, k + 1)) == c.text;
      PushApart(r, c);
      assert PushChange(r, c) == r + [c];
    }
  }

  lemma CharsKeptStep(r: seq<Change>, p: nat, q: nat, old_: string, new_: string, ops: seq<DiffOp>, k: nat, c: Change)
    requires k < |ops| && OldCursor(ops, k + 1) <= |old_| && NewCursor(ops, k + 1) <= |new_|
    requires c == ChangeOf(ops[k], old_, OldCursor(ops, k), new_, NewCursor(ops, k))
    requires |OldSide(r)| == p + OldCursor(ops, k) && |NewSide(r)| == q + NewCursor(ops, k)
    requires AllCharsKept(r, p, q, ops, k)
    ensures AllCharsKept(PushChange(r, c), p, q, ops, k + 1)
  {
    PushGrows(r, c);
    CharsStay(PushChange(r, c), r, p, q, ops, k);
    if ops[k].Equal? { PushedIsKept(r, c.text); }
    assert CharsKept(PushChange(r, c), p, q, ops, k);
  }

  /** What the runs done so far have kept, and that the changes among them are apart. */
  ghost predicate Traced(r: seq<Change>, out: seq<Change>, old_: string, new_: string, ops: seq<DiffOp>, k: nat)
    requires k <= |ops|
  {
    && AllCharsKept(r, |OldSide(out)|, |NewSide(out)|, ops, k)
    && SameChars(r) == SameChars(out) + EqualsTo(ops, k)
    && (EndsSame(out) && Apart(out) && Equals(ops) == LcsLen(old_, new_) ==>
          Apart(r) && EndsLike(r, old_, new_, ops, k))
  }

  lemma TraceStep(r: seq<Change>, out: seq<Change>, old_: string, new_: string, ops: seq<DiffOp>, k: nat, c: Change)
    requires k < |ops| && Script(ops, old_, new_, |old_|, |new_|) && Compact(ops)
    requires OldCursor(ops, k + 1) <= |old_| && NewCursor(ops, k + 1) <= |new_|
    requires c == ChangeOf(ops[k], old_, OldCursor(ops, k), new_, NewCursor(ops, k))
    requires |OldSide(r)| == |OldSide(out)| + OldCursor(ops, k) && |NewSide(r)| == |NewSide(out)| + NewCursor(ops, k)
    requires Traced(r, out, old_, new_, ops, k)
    ensures Traced(PushChange(r, c), out, old_, new_, ops, k + 1)
  {
    CharsKeptStep(r, |OldSide(out)|, |NewSide(out)|, old_, new_, ops, k, c);
    PushSameChars(r, c);
    if EndsSame(out) && Apart(out) && Equals(ops) == LcsLen(old_, new_) { ApartStep(r, old_, new_, ops, k, c); }
  }

  /** The loop over the runs of a character script. */
  method RefineRuns(old_: string, new_: string, ops: seq<DiffOp>, out: seq<Change>) returns (r: seq<Change>)
    requires Merged(out) && Script(ops, old_, new_, |old_|, |new_|) && Compact(ops)
    ensures Adds(r, out, old_, new_)
    ensures EndsFull(out) ==> FullFrom(r, |out|)
    ensures Traced(r, out, old_, new_, ops, |ops|)
  {
    r := out;
    var ai, bi := 0, 0;
    for k := 0 to |ops|
      invariant ai == OldCursor(ops, k) <= |old_| && bi == NewCursor(ops, k) <= |new_|
      invariant Adds(r, out, old_[..ai], new_[..bi])
      invariant EndsFull(out) ==> FullFrom(r, |out|)
      invariant Traced(r, out, old_, new_, ops, k)
    {
      AddsRun(r, out, ops, k, old_, new_);
      var c := ChangeOf(ops[k], old_, ai, new_, bi);
      assert c.text != [];
      if EndsFull(out) { PushFull(r, c, |out|); }
      TraceStep(r, out, old_, new_, ops, k, c);
      r := PushChange(r, c);
      ai := ai + if ops[k].Insert? then 0 else ops[k].n;
      bi := bi + if ops[k].Delete? then 0 else ops[k].n;
    }
    CursorsEnd(ops, |ops|, old_, new_, |old_|, |new_|);
    assert old_[..|old_|] == old_ && new_[..|new_|] == new_;
  }

  // ------------------------------------------------------------------ regions

  method Tokens(text: string, tier: Tier) returns (tokens: seq<string>)
    requires !tier.Char?
    ensures TokensOf(tokens, text, tier)
  {
    if tier.Line? {
      tokens := SplitLines(text);
    } else {
      tokens := SplitWords(text);
    }
  }

  /** What one pass of the loop does to the list: keep a run, refine a region or replace it whole. */
  ghost predicate Stepped(r': seq<Change>, r: seq<Change>, equal: bool, old_: string, new_: string) {
    if equal then old_ != [] && r' == PushChange(r, Same(old_))
    else if |old_| + |new_| > REFINE_LIMIT_CHARS then r' == Replacement(r, old_, new_)
    else |old_| + |new_| > 0 && Grows(r', r) && (EndsFull(r) ==> FullFrom(r', |r|))
  }

  /** The runs of a region, from its tokens at this tier and those of its changes at the next one. */
  method DiffRegion(old_: string, new_: string, tier: Tier, out: seq<Change>)
    returns (r: seq<Change>, ghost a: seq<string>, ghost b: seq<string>, ghost ops: seq<DiffOp>)
    requires Merged(out)
    ensures Adds(r, out, old_, new_)
    ensures KeepsRunsFull(r, out, old_, new_)
    ensures !tier.Char? && old_ == [] && |new_| > REFINE_LIMIT_CHARS ==> r == Replacement(out, [], new_)
    ensures Divided(r, out, old_, new_, tier)
    ensures !tier.Char? ==> TierScript(old_, a, new_, b, ops, tier)
    ensures !tier.Char? && EndsSame(out) ==>
              TokensRefined(r, |OldSide(out)|, |NewSide(out)|, old_, a, new_, b, ops, tier)
    ensures tier.Line? && out == [] ==> (NoEmptyRun(r) <==> NoneLeftEmpty(a, b, ops, |ops|))
    decreases tier.Rank(), 1
  {
    a, b, ops := [], [], [];
    if tier.Char? {
      r := RefineChars(old_, new_, out);
      return;
    }
    var oldTokens := Tokens(old_, tier);
    var newTokens := Tokens(new_, tier);
    var script, _ := DiffSeq(oldTokens, newTokens);
    r := DiffTokens(old_, oldTokens, new_, newTokens, script, tier, out);
    a, b, ops := oldTokens, newTokens, script;
    assert EndsSame(out) ==> TokensRefined(r, |OldSide(out)|, |NewSide(out)|, old_, a, new_, b, ops, tier);
  }

  /** The loop over the runs of a token script. */
  method DiffTokens(old_: string, a: seq<string>, new_: string, b: seq<string>, ops: seq<DiffOp>, tier: Tier,
                    out: seq<Change>)
    returns (r: seq<Change>)
    requires !tier.Char? && Merged(out) && TokenScript(old_, a, new_, b, ops)
    ensures Adds(r, out, old_, new_)
    ensures KeepsRunsFull(r, out, old_, new_)
    ensures old_ == [] && |new_| > REFINE_LIMIT_CHARS ==> r == Replacement(out, [], new_)
    ensures out == [] ==> (NoEmptyRun(r) <==> NoneLeftEmpty(a, b, ops, |ops|))
    ensures EndsSame(out) ==> RunsRefined(r, |OldSide(out)|, |NewSide(out)|, old_, a, new_, b, ops, |ops|, tier)
    ensures EndsSame(out) && Apart(out) ==> Apart(r)
    decreases tier.Rank(), 0, 2
  {
    r := out;
    var c := Cursors(0, 0, 0, 0, 0);
    ProgressStart(out, old_, a, new_, b, ops);
    while c.i < |ops|
      invariant Progress(r, out, old_, a, new_, b, ops, c)
      invariant EndsSame(out) ==> Refining(r, out, old_, a, new_, b, ops, c.i, tier)
      decreases |ops| - c.i
    {
      ghost var before, c0 := r, c;
      r, c := DiffGroup(old_, a, new_, b, ops, c, tier, r, out);
      ProgressStep(r, before, out, old_, a, new_, b, ops, c0, c);
      if EndsSame(out) { RefiningStep(r, before, out, old_, a, new_, b, ops, c0, c, tier); }
    }
    ProgressEnd(r, out, old_, a, new_, b, ops, c);
  }

  /** The runs done so far are in place, and the list is ready for the next one. */
  ghost predicate Refining(r: seq<Change>, out: seq<Change>, old_: string, a: seq<string>, new_: string,
                           b: seq<string>, ops: seq<DiffOp>, i: nat, tier: Tier)
    requires !tier.Char? && i <= |ops|
  {
    && RunsRefined(r, |OldSide(out)|, |NewSide(out)|, old_, a, new_, b, ops, i, tier)
    && (Apart(out) ==> Apart(r))
    && (i == 0 || ops[i - 1].Equal? ==> EndsSame(r))
    && (0 < i < |ops| && !ops[i - 1].Equal? ==> ops[i].Equal?)
  }

  lemma RefiningStep(r': seq<Change>, r: seq<Change>, out: seq<Change>, old_: string, a: seq<string>, new_: string,
                     b: seq<string>, ops: seq<DiffOp>, c: Cursors, c': Cursors, tier: Tier)
    requires !tier.Char? && c.i < |ops| && Refining(r, out, old_, a, new_, b, ops, c.i, tier)
    requires CursorsAt(c, old_, a, new_, b, ops) && CursorsAt(c', old_, a, new_, b, ops)
    requires NextGroup(ops, c.i, c'.i) && c.oldAt <= c'.oldAt && c.newAt <= c'.newAt
    requires Adds(r, out, old_[..c.oldAt], new_[..c.newAt])
    requires ops[c.i].Equal? || EndsSame(r) ==>
               StepRefined(r', r, ops[c.i].Equal?, old_[c.oldAt..c'.oldAt], new_[c.newAt..c'.newAt], tier)
    ensures Refining(r', out, old_, a, new_, b, ops, c'.i, tier)
  {
    assert OldAt(a, ops, c.i) == c.oldAt && OldAt(a, ops, c'.i) == c'.oldAt;
    assert NewAt(b, ops, c.i) == c.newAt && NewAt(b, ops, c'.i) == c'.newAt;
    RunsRefinedStep(r', r, |OldSide(out)|, |NewSide(out)|, old_, a, new_, b, ops, c.i, c'.i, tier);
  }

  /** What the loop has done up to the cursors. */
  ghost predicate Progress(r: seq<Change>, out: seq<Change>, old_: string, a: seq<string>, new_: string, b: seq<string>,
                           ops: seq<DiffOp>, c: Cursors) {
    && CursorsAt(c, old_, a, new_, b, ops)
    && Adds(r, out, old_[..c.oldAt], new_[..c.newAt])
    && KeepsRunsFull(r, out, old_, new_)
    && OneStepIfEmpty(r, out, old_, new_, ops, c)
    && (out == [] ==> Tallied(r, a, b, ops, c.i))
  }

  /** With nothing on the old side the loop makes a single pass. */
  ghost predicate OneStepIfEmpty(r: seq<Change>, out: seq<Change>, old_: string, new_: string, ops: seq<DiffOp>,
                                 c: Cursors) {
    && (c.i == 0 ==> c == Cursors(0, 0, 0, 0, 0) && r == out)
    && (old_ == [] && c.i > 0 ==> c.i == |ops|)
    && (old_ == [] && c.i > 0 && |new_| > REFINE_LIMIT_CHARS ==> r == Replacement(out, [], new_))
  }

  lemma ProgressStart(out: seq<Change>, old_: string, a: seq<string>, new_: string, b: seq<string>, ops: seq<DiffOp>)
    requires Merged(out) && TokenScript(old_, a, new_, b, ops)
    ensures Progress(out, out, old_, a, new_, b, ops, Cursors(0, 0, 0, 0, 0))
  {
    assert old_[..0] == [] && new_[..0] == [];
  }

  lemma OneStep(r': seq<Change>, r: seq<Change>, out: seq<Change>, old_: string, a: seq<string>, new_: string,
                b: seq<string>, ops: seq<DiffOp>, c: Cursors, c': Cursors)
    requires TokenScript(old_, a, new_, b, ops) && OneStepIfEmpty(r, out, old_, new_, ops, c)
    requires CursorsAt(c, old_, a, new_, b, ops) && CursorsAt(c', old_, a, new_, b, ops)
    requires NextGroup(ops, c.i, c'.i) && c.oldAt <= c'.oldAt && c.newAt <= c'.newAt
    requires Stepped(r', r, ops[c.i].Equal?, old_[c.oldAt..c'.oldAt], new_[c.newAt..c'.newAt])
    ensures OneStepIfEmpty(r', out, old_, new_, ops, c')
  {
    if old_ == [] {
      OneSided(old_, a, new_, b, ops);
      assert old_[0..0] == [] && new_[0..|new_|] == new_;
    }
  }

  lemma ProgressStep(r': seq<Change>, r: seq<Change>, out: seq<Change>, old_: string, a: seq<string>, new_: string,
                     b: seq<string>, ops: seq<DiffOp>, c: Cursors, c': Cursors)
    requires TokenScript(old_, a, new_, b, ops) && Progress(r, out, old_, a, new_, b, ops, c)
    requires CursorsAt(c', old_, a, new_, b, ops) && NextGroup(ops, c.i, c'.i)
    requires c.oldAt <= c'.oldAt && c.newAt <= c'.newAt
    requires Adds(r', out, old_[..c'.oldAt], new_[..c'.newAt]) && KeepsRunsFull(r', out, old_, new_)
    requires Stepped(r', r, ops[c.i].Equal?, old_[c.oldAt..c'.oldAt], new_[c.newAt..c'.newAt])
    ensures Progress(r', out, old_, a, new_, b, ops, c')
  {
    OneStep(r', r, out, old_, a, new_, b, ops, c, c');
    if out == [] { TallyStep(r', r, old_, a, new_, b, ops, c, c'); }
  }

  lemma ProgressEnd(r: seq<Change>, out: seq<Change>, old_: string, a: seq<string>, new_: string, b: seq<string>,
                    ops: seq<DiffOp>, c: Cursors)
    requires TokenScript(old_, a, new_, b, ops) && Progress(r, out, old_, a, new_, b, ops, c) && c.i == |ops|
    ensures Adds(r, out, old_, new_)
    ensures old_ == [] && |new_| > REFINE_LIMIT_CHARS ==> r == Replacement(out, [], new_)
    ensures out == [] ==> (NoEmptyRun(r) <==> NoneLeftEmpty(a, b, ops, |ops|))
  {
    CursorsEnd(ops, |ops|, a, b, |a|, |b|);
    OffsetEnd(a, |a|, old_, |old_|);
    OffsetEnd(b, |b|, new_, |new_|);
    assert old_[..|old_|] == old_ && new_[..|new_|] == new_;
  }

  // ------------------------------------------------------------------ empty runs

  /** Run `k` is a change with nothing changed opposite to it. */
  predicate Lone(ops: seq<DiffOp>, k: nat) {
    && k < |ops| && !ops[k].Equal?
    && (k > 0 ==> ops[k - 1].Equal?) && (k + 1 < |ops| ==> ops[k + 1].Equal?)
  }

  /** How many characters the tokens of run `k` have, on the side it changes. */
  function RunChars(a: seq<string>, b: seq<string>, ops: seq<DiffOp>, k: nat): int {
    if k < |ops| && OldCursor(ops, k + 1) <= |a| && NewCursor(ops, k + 1) <= |b| then
      if ops[k].Insert? then Offset(b, NewCursor(ops, k + 1)) - Offset(b, NewCursor(ops, k))
      else Offset(a, OldCursor(ops, k + 1)) - Offset(a, OldCursor(ops, k))
    else 0
  }

  /** Run `k` is lone and too large to refine: its replacement has an empty other half. */
  predicate LeavesEmpty(a: seq<string>, b: seq<string>, ops: seq<DiffOp>, k: nat) {
    Lone(ops, k) && RunChars(a, b, ops, k) > REFINE_LIMIT_CHARS
  }

  ghost predicate NoneLeftEmpty(a: seq<string>, b: seq<string>, ops: seq<DiffOp>, n: nat) {
    forall k: nat :: k < n ==> !LeavesEmpty(a, b, ops, k)
  }

  /** Empty runs are never equal runs, and there are some exactly if a run done so far left one. */
  ghost predicate Tallied(r: seq<Change>, a: seq<string>, b: seq<string>, ops: seq<DiffOp>, i: nat) {
    && i <= |ops|
    && (forall k :: 0 <= k < |r| && r[k].text == [] ==> !r[k].Same?)
    && (NoEmptyRun(r) <==> NoneLeftEmpty(a, b, ops, i))
    && (i == 0 ==> r == [])
    && (i > 0 && ops[i - 1].Equal? ==> r != [] && r[|r| - 1].Same?)
    && (0 < i < |ops| && !ops[i - 1].Equal? ==> ops[i].Equal?)
  }

  lemma TallyEqual(r': seq<Change>, r: seq<Change>, a: seq<string>, b: seq<string>, ops: seq<DiffOp>, i: nat, x: string)
    requires Tallied(r, a, b, ops, i) && i < |ops| && ops[i].Equal? && x != [] && r' == PushChange(r, Same(x))
    ensures Tallied(r', a, b, ops, i + 1)
  {
    assert NoneLeftEmpty(a, b, ops, i + 1) <==> NoneLeftEmpty(a, b, ops, i);
    PushKeepsHoles(r, x);
  }

  lemma PushKeepsHoles(r: seq<Change>, x: string)
    requires x != [] && forall k :: 0 <= k < |r| && r[k].text == [] ==> !r[k].Same?
    ensures NoEmptyRun(PushChange(r, Same(x))) <==> NoEmptyRun(r)
  {
    var r' := PushChange(r, Same(x));
    forall k | 0 <= k < |r| && r[k].text == [] ensures r'[k].text == [] { }
  }

  /** Of the runs of a group only the first can be lone. */
  lemma GroupTally(a: seq<string>, b: seq<string>, ops: seq<DiffOp>, i: nat, i': nat)
    requires NextGroup(ops, i, i') && !ops[i].Equal?
    ensures NoneLeftEmpty(a, b, ops, i') <==> NoneLeftEmpty(a, b, ops, i) && !LeavesEmpty(a, b, ops, i)
  {
    forall k: nat | i < k < i' ensures !LeavesEmpty(a, b, ops, k) {
      assert !ops[k - 1].Equal?;
    }
  }

  /** Two neighbouring changes are of different kinds, so a longer group changes both sides. */
  lemma LongGroup(ops: seq<DiffOp>, i: nat, i': nat)
    requires Compact(ops) && NextGroup(ops, i, i') && !ops[i].Equal? && i + 1 < i'
    ensures OldCursor(ops, i) < OldCursor(ops, i') && NewCursor(ops, i) < NewCursor(ops, i')
  {
    assert !ops[i + 1].Equal? && ops[i].n > 0 && ops[i + 1].n > 0;
    assert OldCursor(ops, i) < OldCursor(ops, i + 2) && NewCursor(ops, i) < NewCursor(ops, i + 2);
    CursorsGrow(ops, i + 2, i');
  }

  /** A group has an empty side exactly if it is a single run. */
  lemma LoneGroup(old_: string, a: seq<string>, new_: string, b: seq<string>, ops: seq<DiffOp>, c: Cursors, c': Cursors)
    requires TokenScript(old_, a, new_, b, ops) && NextGroup(ops, c.i, c'.i) && !ops[c.i].Equal?
    requires CursorsAt(c, old_, a, new_, b, ops) && CursorsAt(c', old_, a, new_, b, ops)
    ensures c'.i == c.i + 1 <==> c'.oldAt == c.oldAt || c'.newAt == c.newAt
    ensures c'.i == c.i + 1 ==> RunChars(a, b, ops, c.i) == (c'.oldAt - c.oldAt) + (c'.newAt - c.newAt)
  {
    if c.i + 1 < c'.i {
      LongGroup(ops, c.i, c'.i);
      OffsetMonotone(a, c.ai, c'.ai);
      OffsetMonotone(b, c.bi, c'.bi);
    }
  }

  lemma TallyRefined(r': seq<Change>, r: seq<Change>)
    requires Grows(r', r) && (EndsFull(r) ==> FullFrom(r', |r|)) && (r == [] || r[|r| - 1].Same?)
    requires forall k :: 0 <= k < |r| && r[k].text == [] ==> !r[k].Same?
    ensures forall k :: 0 <= k < |r'| && r'[k].text == [] ==> !r'[k].Same?
    ensures NoEmptyRun(r') <==> NoEmptyRun(r)
  {
    assert EndsFull(r) && FullFrom(r', |r|);
    forall k | 0 <= k < |r'| ensures r'[k].text == [] ==> k < |r| - 1 && r'[k] == r[k] {
      if k < |r| - 1 { assert r'[k] == r[k]; }
    }
    forall k | 0 <= k < |r| && r[k].text == [] ensures r'[k].text == [] {
      assert r'[k] == r[k];
    }
  }

  lemma TallyReplaced(r': seq<Change>, r: seq<Change>, old_: string, new_: string)
    requires r' == Replacement(r, old_, new_) && (r == [] || r[|r| - 1].Same?)
    requires forall k :: 0 <= k < |r| && r[k].text == [] ==> !r[k].Same?
    ensures forall k :: 0 <= k < |r'| && r'[k].text == [] ==> !r'[k].Same?
    ensures NoEmptyRun(r') <==> NoEmptyRun(r) && old_ != [] && new_ != []
  {
    assert r' == r + [Deleted(old_), Inserted(new_)];
    assert r'[|r|] == Deleted(old_) && r'[|r| + 1] == Inserted(new_);
    assert forall k :: 0 <= k < |r| ==> r'[k] == r[k];
  }

  lemma TallyStep(r': seq<Change>, r: seq<Change>, old_: string, a: seq<string>, new_: string, b: seq<string>,
                  ops: seq<DiffOp>, c: Cursors, c': Cursors)
    requires Tallied(r, a, b, ops, c.i) && TokenScript(old_, a, new_, b, ops) && NextGroup(ops, c.i, c'.i)
    requires CursorsAt(c, old_, a, new_, b, ops) && CursorsAt(c', old_, a, new_, b, ops)
    requires c.oldAt <= c'.oldAt && c.newAt <= c'.newAt
    requires Stepped(r', r, ops[c.i].Equal?, old_[c.oldAt..c'.oldAt], new_[c.newAt..c'.newAt])
    ensures Tallied(r', a, b, ops, c'.i)
  {
    var o, n := old_[c.oldAt..c'.oldAt], new_[c.newAt..c'.newAt];
    if ops[c.i].Equal? {
      TallyEqual(r', r, a, b, ops, c.i, o);
    } else {
      GroupTally(a, b, ops, c.i, c'.i);
      LoneGroup(old_, a, new_, b, ops, c, c');
      TallyGroup(r', r, a, b, ops, c.i, c'.i, o, n);
    }
  }

  lemma TallyGroup(r': seq<Change>, r: seq<Change>, a: seq<string>, b: seq<string>, ops: seq<DiffOp>, i: nat, i': nat,
                   old_: string, new_: string)
    requires Tallied(r, a, b, ops, i) && NextGroup(ops, i, i') && !ops[i].Equal? && Stepped(r', r, false, old_, new_)
    requires NoneLeftEmpty(a, b, ops, i') <==> NoneLeftEmpty(a, b, ops, i) && !LeavesEmpty(a, b, ops, i)
    requires i' == i + 1 <==> old_ == [] || new_ == []
    requires i' == i + 1 ==> RunChars(a, b, ops, i) == |old_| + |new_|
    ensures Tallied(r', a, b, ops, i')
  {
    assert r == [] || r[|r| - 1].Same?;
    assert Lone(ops, i) <==> i' == i + 1;
    if |old_| + |new_| > REFINE_LIMIT_CHARS {
      TallyReplaced(r', r, old_, new_);
    } else {
      TallyRefined(r', r);
    }
  }

  /** An empty old side leaves nothing to keep, and the tokens of both sides are used up. */
  lemma OneSided(old_: string, a: seq<string>, new_: string, b: seq<string>, ops: seq<DiffOp>)
    requires old_ == [] && TokenScript(old_, a, new_, b, ops)
    ensures forall k :: 0 <= k < |ops| ==> !ops[k].Equal?
    ensures OldCursor(ops, |ops|) == |a| && NewCursor(ops, |ops|) == |b|
    ensures Offset(a, |a|) == 0 && Offset(b, |b|) == |new_|
  {
    CursorsEnd(ops, |ops|, a, b, |a|, |b|);
    OffsetEnd(a, |a|, old_, 0);
    OffsetEnd(b, |b|, new_, |new_|);
    OffsetMonotone(a, 0, |a|);
    forall k | 0 <= k < |ops| ensures !ops[k].Equal? {
      RunFits(ops, k, a, b);
    }
  }

  /** The body of the loop: one equal run, or one group of deletes and inserts. */
  method DiffGroup(old_: string, a: seq<string>, new_: string, b: seq<string>, ops: seq<DiffOp>, c: Cursors,
                   tier: Tier, r: seq<Change>, ghost out: seq<Change>)
    returns (r': seq<Change>, c': Cursors)
    requires !tier.Char? && c.i < |ops| && TokenScript(old_, a, new_, b, ops)
    requires CursorsAt(c, old_, a, new_, b, ops)
    requires Adds(r, out, old_[..c.oldAt], new_[..c.newAt])
    requires KeepsRunsFull(r, out, old_, new_)
    ensures c.i < c'.i && CursorsAt(c', old_, a, new_, b, ops)
    ensures Adds(r', out, old_[..c'.oldAt], new_[..c'.newAt])
    ensures KeepsRunsFull(r', out, old_, new_)
    ensures NextGroup(ops, c.i, c'.i) && c.oldAt <= c'.oldAt && c.newAt <= c'.newAt
    ensures Stepped(r', r, ops[c.i].Equal?, old_[c.oldAt..c'.oldAt], new_[c.newAt..c'.newAt])
    ensures ops[c.i].Equal? || EndsSame(r) ==>
              StepRefined(r', r, ops[c.i].Equal?, old_[c.oldAt..c'.oldAt], new_[c.newAt..c'.newAt], tier)
    decreases tier.Rank(), 0, 1
  {
    c' := NextCursors(old_, a, new_, b, ops, c);
    var oldRegion, newRegion := old_[c.oldAt..c'.oldAt], new_[c.newAt..c'.newAt];
    if ops[c.i].Equal? {
      EqualTexts(old_, a, new_, b, ops, c.i);
      AddsOne(r, Same(oldRegion));
      SameIsRefined(r, oldRegion, newRegion, tier);
      r' := PushChange(r, Same(oldRegion));
    } else {
      r' := EmitRegion(oldRegion, newRegion, tier, r);
    }
    GroupAdds(r', r, ops[c.i].Equal?, out, old_, c.oldAt, c'.oldAt, new_, c.newAt, c'.newAt);
  }

  lemma GroupAdds(r': seq<Change>, r: seq<Change>, equal: bool, out: seq<Change>, old_: string, i: nat, i': nat,
                  new_: string, j: nat, j': nat)
    requires i <= i' <= |old_| && j <= j' <= |new_|
    requires Adds(r, out, old_[..i], new_[..j]) && Adds(r', r, old_[i..i'], new_[j..j'])
    requires KeepsRunsFull(r, out, old_, new_) && Stepped(r', r, equal, old_[i..i'], new_[j..j'])
    ensures Adds(r', out, old_[..i'], new_[..j']) && KeepsRunsFull(r', out, old_, new_)
  {
    StaysFull(r', r, equal, out, old_, old_[i..i'], new_, new_[j..j']);
    AddsThen(r', r, out, old_, i, i', new_, j, j');
  }

  lemma SameIsRefined(r: seq<Change>, x: string, y: string, tier: Tier)
    requires !tier.Char?
    ensures StepRefined(PushChange(r, Same(x)), r, true, x, y, tier)
  {
    PushGrows(r, Same(x));
    PushedIsKept(r, x);
    if Apart(r) { PushApart(r, Same(x)); }
  }

  lemma StaysFull(r': seq<Change>, r: seq<Change>, equal: bool, out: seq<Change>, old_: string, o: string,
                  new_: string, n: string)
    requires Stepped(r', r, equal, o, n) && KeepsRunsFull(r, out, old_, new_) && Grows(r, out)
    requires |o| <= |old_| && |n| <= |new_|
    ensures KeepsRunsFull(r', out, old_, new_)
  {
    if EndsFull(out) && 0 < |old_| + |new_| <= REFINE_LIMIT_CHARS {
      if equal { PushFull(r, Same(o), |out|); } else { FullThen(r', r, |out|); }
    }
  }

  /** Move the cursors over one equal run or one replacement group. */
  method NextCursors(ghost old_: string, a: seq<string>, ghost new_: string, b: seq<string>, ops: seq<DiffOp>,
                     c: Cursors)
    returns (c': Cursors)
    requires c.i < |ops| && TokenScript(old_, a, new_, b, ops) && CursorsAt(c, old_, a, new_, b, ops)
    ensures c.i < c'.i && CursorsAt(c', old_, a, new_, b, ops)
    ensures c.oldAt <= c'.oldAt && c.newAt <= c'.newAt && c.oldAt + c.newAt < c'.oldAt + c'.newAt
    ensures NextGroup(ops, c.i, c'.i)
  {
    var del, ins, i' := NextRuns(ops, c.i);
    RegionBounds(old_, a, new_, b, ops, c.i, i');
    c' := Cursors(i', c.ai + del, c.bi + ins,
                  c.oldAt + SpanLength(a, c.ai, c.ai + del), c.newAt + SpanLength(b, c.bi, c.bi + ins));
  }

  /** The equal run or the replacement group at `i`, and how many tokens of each side it takes. */
  method NextRuns(ops: seq<DiffOp>, i: nat) returns (del: nat, ins: nat, i': nat)
    requires i < |ops|
    ensures NextGroup(ops, i, i')
    ensures OldCursor(ops, i') == OldCursor(ops, i) + del && NewCursor(ops, i') == NewCursor(ops, i) + ins
  {
    if ops[i].Equal? {
      del, ins, i' := ops[i].n, ops[i].n, i + 1;
    } else {
      del, ins, i' := Group(ops, i);
    }
  }

  /** The replacement group that starts at `i`: all consecutive deletes and inserts, summed. */
  method Group(ops: seq<DiffOp>, i: nat) returns (del: nat, ins: nat, i': nat)
    requires i < |ops| && !ops[i].Equal?
    ensures NextGroup(ops, i, i')
    ensures OldCursor(ops, i') == OldCursor(ops, i) + del && NewCursor(ops, i') == NewCursor(ops, i) + ins
  {
    del, ins, i' := 0, 0, i;
    while i' < |ops| && !ops[i'].Equal?
      invariant i <= i' <= |ops| && forall k :: i <= k < i' ==> !ops[k].Equal?
      invariant OldCursor(ops, i') == OldCursor(ops, i) + del && NewCursor(ops, i') == NewCursor(ops, i) + ins
    {
      if ops[i'].Delete? {
        del := del + ops[i'].n;
      } else {
        ins := ins + ops[i'].n;
      }
      i' := i' + 1;
    }
  }

  lemma ReplacementIsRefined(r: seq<Change>, old_: string, new_: string, tier: Tier)
    requires !tier.Char? && EndsSame(r) && |old_| + |new_| > REFINE_LIMIT_CHARS && Grows(Replacement(r, old_, new_), r)
    ensures StepRefined(Replacement(r, old_, new_), r, false, old_, new_, tier)
  {
    ReplacementIsWhole(r, old_, new_);
    if Apart(r) { ReplacementApart(r, old_, new_); }
  }

  /** Refine a changed region at the next tier, or give it up as one replacement. */
  method EmitRegion(oldRegion: string, newRegion: string, tier: Tier, out: seq<Change>) returns (r: seq<Change>)
    requires !tier.Char? && Merged(out)
    ensures Adds(r, out, oldRegion, newRegion)
    ensures KeepsRunsFull(r, out, oldRegion, newRegion)
    ensures |oldRegion| + |newRegion| > REFINE_LIMIT_CHARS ==> r == Replacement(out, oldRegion, newRegion)
    ensures EndsSame(out) ==> StepRefined(r, out, false, oldRegion, newRegion, tier)
    decreases tier.Rank(), 0, 0
  {
    if |oldRegion| + |newRegion| > REFINE_LIMIT_CHARS {
      AddsBoth(out, oldRegion, newRegion);
      if EndsSame(out) { ReplacementIsRefined(out, oldRegion, newRegion, tier); }
      r := Replacement(out, oldRegion, newRegion);
    } else {
      var refined, _, _, _ := DiffRegion(oldRegion, newRegion, tier.Next(), out);
      r := refined;
    }
  }

  /**
    `diff_chars`: same and deleted runs spell `old`, same and inserted runs spell `new`, and
    neighbouring runs differ in kind. The lines a minimal script keeps are in place, what it
    changes is divided by words and then by characters, and neighbouring changes that were
    small enough for that share no character. A run is empty exactly if the script of the lines has a
    lone change of more characters than are refined; up to that many characters there is none,
    and past it every insertion into an empty text is one.
   */
  method DiffChars(old_: string, new_: string)
    returns (changes: seq<Change>, ghost a: seq<string>, ghost b: seq<string>, ghost ops: seq<DiffOp>)
    ensures OldSide(changes) == old_ && NewSide(changes) == new_ && Merged(changes)
    ensures old_ != new_ ==> TokensRefined(changes, 0, 0, old_, a, new_, b, ops, Line)
    ensures Apart(changes)
    ensures NoEmptyRun(changes) <==> old_ == new_ || NoneLeftEmpty(a, b, ops, |ops|)
    ensures |old_| + |new_| <= REFINE_LIMIT_CHARS ==> NoEmptyRun(changes)
    ensures old_ == [] && |new_| > REFINE_LIMIT_CHARS ==> changes == [Deleted([]), Inserted(new_)]
  {
    changes, a, b, ops := [], [], [], [];
    if old_ == new_ {
      if old_ != [] {
        changes := PushChange([], Same(old_));
        OneSame(old_);
      }
      return;
    }
    changes, a, b, ops := DiffRegion(old_, new_, Line, []);
    NothingBefore(changes, old_, new_);
  }

  lemma OneSame(text: string)
    requires text != []
    ensures var r := PushChange([], Same(text)); OldSide(r) == NewSide(r) == text && Merged(r) && NoEmptyRun(r)
  {
    AddsOne([], Same(text));
  }

  lemma NothingBefore(changes: seq<Change>, old_: string, new_: string)
    requires Adds(changes, [], old_, new_) && KeepsRunsFull(changes, [], old_, new_)
    ensures OldSide(changes) == old_ && NewSide(changes) == new_ && Merged(changes)
    ensures 0 < |old_| + |new_| <= REFINE_LIMIT_CHARS ==> NoEmptyRun(changes)
    ensures Replacement([], [], new_) == [Deleted([]), Inserted(new_)]
  {
  }
}
