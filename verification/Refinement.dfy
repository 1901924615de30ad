/**
  What a tiered diff is (crates/nisaba-core/src/review.rs): a region is divided by the script
  of its lines, the changes by the scripts of their words, and those by the scripts of their
  characters. Everything is read off the finished list of changes.
 */
module Refinement {
  import opened Lcs
  import opened EditScripts
  import opened Hirschberg
  import opened ChangeLists
  import opened TokenScripts

  // ------------------------------------------------------------------ optimal scripts

  /** Every prefix of a script that keeps the most keeps the most. */
  lemma {:induction false} PrefixIsOptimal<T>(ops: seq<DiffOp>, m: nat, a: seq<T>, b: seq<T>, i: nat, j: nat, k: nat)
    requires k <= m <= |ops| && i <= |a| && j <= |b| && ScriptTo(ops, m, a, b, i, j)
    requires EqualsTo(ops, m) == LcsLen(a[..i], b[..j])
    ensures OldCursor(ops, k) <= i && NewCursor(ops, k) <= j
    ensures EqualsTo(ops, k) == LcsLen(a[..OldCursor(ops, k)], b[..NewCursor(ops, k)])
  {
    if k == m {
      CursorsEnd(ops, m, a, b, i, j);
    } else {
      var n := ops[m - 1].n;
      var i' := if ops[m - 1].Insert? then i else i - n;
      var j' := if ops[m - 1].Delete? then j else j - n;
      ScriptBound(ops, m - 1, a, b, i', j');
      if ops[m - 1].Equal? { LcsAppendMatch(a, b, i', j', n); } else { LcsPrefixes(a, b, i', j', i, j); }
      PrefixIsOptimal(ops, m - 1, a, b, i', j', k);
    }
  }

  /** Where the longest common subsequence does not grow, the stretches have no element in common. */
  lemma FlatSharesNothing<T>(a: seq<T>, b: seq<T>, i: nat, j: nat, i': nat, j': nat, x: nat, y: nat)
    requires i <= x < i' <= |a| && j <= y < j' <= |b|
    requires LcsLen(a[..i], b[..j]) == LcsLen(a[..i'], b[..j'])
    ensures a[x] != b[y]
  {
    if a[x] == b[y] {
      assert Init(a[..x + 1]) == a[..x] && Init(b[..y + 1]) == b[..y];
      LcsPrefixes(a, b, i, j, x, y);
      LcsPrefixes(a, b, x + 1, y + 1, i', j');
    }
  }

  /** Two neighbouring changes of an optimal script share no element. */
  lemma NeighboursShareNothing<T>(ops: seq<DiffOp>, k: nat, a: seq<T>, b: seq<T>, x: nat, y: nat)
    requires Script(ops, a, b, |a|, |b|) && Equals(ops) == LcsLen(a, b)
    requires 0 < k < |ops| && !ops[k - 1].Equal? && !ops[k].Equal?
    requires OldCursor(ops, k - 1) <= x < OldCursor(ops, k + 1) && NewCursor(ops, k - 1) <= y < NewCursor(ops, k + 1)
    ensures x < |a| && y < |b| && a[x] != b[y]
  {
    assert a[..|a|] == a && b[..|b|] == b;
    PrefixIsOptimal(ops, |ops|, a, b, |a|, |b|, k - 1);
    PrefixIsOptimal(ops, |ops|, a, b, |a|, |b|, k + 1);
    assert EqualsTo(ops, k + 1) == EqualsTo(ops, k) == EqualsTo(ops, k - 1);
    FlatSharesNothing(a, b, OldCursor(ops, k - 1), NewCursor(ops, k - 1), OldCursor(ops, k + 1), NewCursor(ops, k + 1),
                      x, y);
  }

  // ------------------------------------------------------------------ characters

  /** The script of two texts, which keeps as many characters as any within the work limit. */
  ghost predicate CharScript(old_: string, new_: string, ops: seq<DiffOp>) {
    && Script(ops, old_, new_, |old_|, |new_|)
    && (|old_| * |new_| <= DIFF_WORK_LIMIT ==> Equals(ops) == LcsLen(old_, new_))
  }

  /** The characters of run `k` are kept, as characters of a region that begins at `p` and `q`. */
  ghost predicate CharsKept(r: seq<Change>, p: nat, q: nat, ops: seq<DiffOp>, k: nat)
    requires k < |ops|
  {
    ops[k].Equal? ==> Kept(r, p + OldCursor(ops, k), q + NewCursor(ops, k), ops[k].n)
  }

  ghost predicate AllCharsKept(r: seq<Change>, p: nat, q: nat, ops: seq<DiffOp>, m: nat)
    requires m <= |ops|
  {
    forall k: nat :: k < m ==> CharsKept(r, p, q, ops, k)
  }

  ghost predicate CharsRefined(r: seq<Change>, p: nat, q: nat, old_: string, new_: string, ops: seq<DiffOp>) {
    CharScript(old_, new_, ops) && AllCharsKept(r, p, q, ops, |ops|)
  }

  // ------------------------------------------------------------------ tokens

  /** How many characters of the old side the first `k` runs use up. */
  function OldAt(a: seq<string>, ops: seq<DiffOp>, k: nat): nat
    requires k <= |ops|
  {
    if OldCursor(ops, k) <= |a| then Offset(a, OldCursor(ops, k)) else 0
  }

  function NewAt(b: seq<string>, ops: seq<DiffOp>, k: nat): nat
    requires k <= |ops|
  {
    if NewCursor(ops, k) <= |b| then Offset(b, NewCursor(ops, k)) else 0
  }

  function Part(text: string, from: nat, to: nat): string { if from <= to <= |text| then text[from..to] else [] }

  /** A maximal group of changes. */
  ghost predicate IsGroup(ops: seq<DiffOp>, i: nat, i': nat) {
    && i < i' <= |ops| && (forall k :: i <= k < i' ==> !ops[k].Equal?)
    && (i > 0 ==> ops[i - 1].Equal?) && (i' < |ops| ==> ops[i'].Equal?)
  }

  ghost predicate TokensKept(r: seq<Change>, p: nat, q: nat, a: seq<string>, b: seq<string>, ops: seq<DiffOp>, k: nat)
    requires k < |ops|
  {
    ops[k].Equal? ==> Kept(r, p + OldAt(a, ops, k), q + NewAt(b, ops, k), OldAt(a, ops, k + 1) - OldAt(a, ops, k))
  }

  /** A region that begins at `p` and `q` is given up whole if it is large, and divided at the next tier if not. */
  ghost predicate RegionRefined(r: seq<Change>, p: nat, q: nat, old_: string, new_: string, tier: Tier)
    requires !tier.Char?
    decreases tier.Rank(), 0
  {
    if |old_| + |new_| > REFINE_LIMIT_CHARS then Whole(r, p, q, old_, new_)
    else Refined(r, p, q, old_, new_, tier.Next())
  }

  ghost predicate GroupRefined(r: seq<Change>, p: nat, q: nat, old_: string, a: seq<string>, new_: string,
                               b: seq<string>, ops: seq<DiffOp>, i: nat, i': nat, tier: Tier)
    requires !tier.Char? && i <= |ops| && i' <= |ops|
    decreases tier.Rank(), 1
  {
    RegionRefined(r, p + OldAt(a, ops, i), q + NewAt(b, ops, i), Part(old_, OldAt(a, ops, i), OldAt(a, ops, i')),
                  Part(new_, NewAt(b, ops, i), NewAt(b, ops, i')), tier)
  }

  /** Of the first `m` runs, the equal ones are kept in place and the groups of changes refined. */
  ghost predicate RunsRefined(r: seq<Change>, p: nat, q: nat, old_: string, a: seq<string>, new_: string,
                              b: seq<string>, ops: seq<DiffOp>, m: nat, tier: Tier)
    requires !tier.Char? && m <= |ops|
    decreases tier.Rank(), 2
  {
    && (forall k: nat :: k < m ==> TokensKept(r, p, q, a, b, ops, k))
    && (forall i: nat, i': nat {:trigger IsGroup(ops, i, i')} :: i' <= m && IsGroup(ops, i, i') ==>
          GroupRefined(r, p, q, old_, a, new_, b, ops, i, i', tier))
  }

  ghost predicate TokensRefined(r: seq<Change>, p: nat, q: nat, old_: string, a: seq<string>, new_: string,
                                b: seq<string>, ops: seq<DiffOp>, tier: Tier)
    requires !tier.Char?
    decreases tier.Rank(), 3
  {
    TierScript(old_, a, new_, b, ops, tier) && RunsRefined(r, p, q, old_, a, new_, b, ops, |ops|, tier)
  }

  /** The list has a tiered diff of two texts, which begin at `p` of its old side and `q` of its new side. */
  ghost predicate Refined(r: seq<Change>, p: nat, q: nat, old_: string, new_: string, tier: Tier)
    decreases tier.Rank(), 4
  {
    if tier.Char? then exists ops :: CharsRefined(r, p, q, old_, new_, ops)
    else exists a, b, ops :: TokensRefined(r, p, q, old_, a, new_, b, ops, tier)
  }

  /** What a call at a tier owes, given a list that ends with a kept run or has none. */
  ghost predicate Divided(r: seq<Change>, out: seq<Change>, old_: string, new_: string, tier: Tier) {
    EndsSame(out) ==>
      && Refined(r, |OldSide(out)|, |NewSide(out)|, old_, new_, tier)
      && (Apart(out) && (tier.Char? ==> |old_| + |new_| <= REFINE_LIMIT_CHARS) ==> Apart(r))
  }

  // ------------------------------------------------------------------ a longer list has it too

  lemma CharsStay(r': seq<Change>, r: seq<Change>, p: nat, q: nat, ops: seq<DiffOp>, m: nat)
    requires Grows(r', r) && m <= |ops| && AllCharsKept(r, p, q, ops, m)
    ensures AllCharsKept(r', p, q, ops, m)
  {
    forall k: nat | k < m ensures CharsKept(r', p, q, ops, k) {
      assert CharsKept(r, p, q, ops, k);
      if ops[k].Equal? { KeptStays(r', r, p + OldCursor(ops, k), q + NewCursor(ops, k), ops[k].n); }
    }
  }

  lemma TokensStay(r': seq<Change>, r: seq<Change>, p: nat, q: nat, a: seq<string>, b: seq<string>, ops: seq<DiffOp>,
                   k: nat)
    requires Grows(r', r) && k < |ops| && TokensKept(r, p, q, a, b, ops, k)
    ensures TokensKept(r', p, q, a, b, ops, k)
  {
    if ops[k].Equal? {
      KeptStays(r', r, p + OldAt(a, ops, k), q + NewAt(b, ops, k), OldAt(a, ops, k + 1) - OldAt(a, ops, k));
    }
  }

  lemma RegionStays(r': seq<Change>, r: seq<Change>, p: nat, q: nat, old_: string, new_: string, tier: Tier)
    requires !tier.Char? && Settles(r', r) && RegionRefined(r, p, q, old_, new_, tier)
    ensures RegionRefined(r', p, q, old_, new_, tier)
    decreases tier.Rank(), 0
  {
    if |old_| + |new_| > REFINE_LIMIT_CHARS {
      WholeStays(r', r, p, q, old_, new_);
    } else {
      RefinedStays(r', r, p, q, old_, new_, tier.Next());
    }
  }

  lemma RunsStay(r': seq<Change>, r: seq<Change>, p: nat, q: nat, old_: string, a: seq<string>, new_: string,
                 b: seq<string>, ops: seq<DiffOp>, m: nat, tier: Tier)
    requires !tier.Char? && m <= |ops| && Settles(r', r) && RunsRefined(r, p, q, old_, a, new_, b, ops, m, tier)
    ensures RunsRefined(r', p, q, old_, a, new_, b, ops, m, tier)
    decreases tier.Rank(), 1
  {
    forall k: nat | k < m ensures TokensKept(r', p, q, a, b, ops, k) { TokensStay(r', r, p, q, a, b, ops, k); }
    forall i: nat, i': nat | i' <= m && IsGroup(ops, i, i')
      ensures GroupRefined(r', p, q, old_, a, new_, b, ops, i, i', tier) {
      assert GroupRefined(r, p, q, old_, a, new_, b, ops, i, i', tier);
      RegionStays(r', r, p + OldAt(a, ops, i), q + NewAt(b, ops, i), Part(old_, OldAt(a, ops, i), OldAt(a, ops, i')),
                  Part(new_, NewAt(b, ops, i), NewAt(b, ops, i')), tier);
    }
  }

  lemma RefinedStays(r': seq<Change>, r: seq<Change>, p: nat, q: nat, old_: string, new_: string, tier: Tier)
    requires Settles(r', r) && Refined(r, p, q, old_, new_, tier)
    ensures Refined(r', p, q, old_, new_, tier)
    decreases tier.Rank(), 2
  {
    if tier.Char? {
      var ops :| CharsRefined(r, p, q, old_, new_, ops);
      CharsStay(r', r, p, q, ops, |ops|);
      assert CharsRefined(r', p, q, old_, new_, ops);
    } else {
      var a, b, ops :| TokensRefined(r, p, q, old_, a, new_, b, ops, tier);
      RunsStay(r', r, p, q, old_, a, new_, b, ops, |ops|, tier);
      assert TokensRefined(r', p, q, old_, a, new_, b, ops, tier);
    }
  }

  // ------------------------------------------------------------------ one step of the loop

  /** What one pass of the loop over a script owes: the equal run in place, or the group refined. */
  ghost predicate StepRefined(r': seq<Change>, r: seq<Change>, equal: bool, old_: string, new_: string, tier: Tier)
    requires !tier.Char?
  {
    && Settles(r', r)
    && (equal ==> EndsSame(r') && Kept(r', |OldSide(r)|, |NewSide(r)|, |old_|))
    && (!equal ==> RegionRefined(r', |OldSide(r)|, |NewSide(r)|, old_, new_, tier))
    && (Apart(r) ==> Apart(r'))
  }

  /** The only group that ends with this step is its own. */
  lemma OnlyThisGroup(ops: seq<DiffOp>, c: nat, c': nat, i: nat, i': nat)
    requires NextGroup(ops, c, c') && IsGroup(ops, i, i') && c < i' <= c'
    requires c > 0 && !ops[c - 1].Equal? ==> ops[c].Equal?
    ensures !ops[c].Equal? && i == c && i' == c'
  {
    assert !ops[i' - 1].Equal? && !ops[i].Equal?;
  }

  lemma RunsRefinedStep(r': seq<Change>, r: seq<Change>, p: nat, q: nat, old_: string, a: seq<string>, new_: string,
                        b: seq<string>, ops: seq<DiffOp>, c: nat, c': nat, tier: Tier)
    requires !tier.Char? && c < |ops| && RunsRefined(r, p, q, old_, a, new_, b, ops, c, tier)
    requires NextGroup(ops, c, c') && (c > 0 && !ops[c - 1].Equal? ==> ops[c].Equal?)
    requires |OldSide(r)| == p + OldAt(a, ops, c) && |NewSide(r)| == q + NewAt(b, ops, c)
    requires OldAt(a, ops, c) <= OldAt(a, ops, c') <= |old_| && NewAt(b, ops, c) <= NewAt(b, ops, c') <= |new_|
    requires StepRefined(r', r, ops[c].Equal?, old_[OldAt(a, ops, c)..OldAt(a, ops, c')],
                         new_[NewAt(b, ops, c)..NewAt(b, ops, c')], tier)
    ensures RunsRefined(r', p, q, old_, a, new_, b, ops, c', tier)
  {
    RunsStay(r', r, p, q, old_, a, new_, b, ops, c, tier);
    forall k: nat | k < c' ensures TokensKept(r', p, q, a, b, ops, k) {
      if k >= c { assert ops[c].Equal? ==> c' == c + 1; }
    }
    forall i: nat, i': nat | i' <= c' && IsGroup(ops, i, i')
      ensures GroupRefined(r', p, q, old_, a, new_, b, ops, i, i', tier) {
      if i' > c {
        OnlyThisGroup(ops, c, c', i, i');
        ThisGroup(r', r, p, q, old_, a, new_, b, ops, c, c', tier);
      }
    }
  }

  lemma ThisGroup(r': seq<Change>, r: seq<Change>, p: nat, q: nat, old_: string, a: seq<string>, new_: string,
                  b: seq<string>, ops: seq<DiffOp>, c: nat, c': nat, tier: Tier)
    requires !tier.Char? && c <= c' <= |ops|
    requires |OldSide(r)| == p + OldAt(a, ops, c) && |NewSide(r)| == q + NewAt(b, ops, c)
    requires OldAt(a, ops, c) <= OldAt(a, ops, c') <= |old_| && NewAt(b, ops, c) <= NewAt(b, ops, c') <= |new_|
    requires StepRefined(r', r, false, old_[OldAt(a, ops, c)..OldAt(a, ops, c')],
                         new_[NewAt(b, ops, c)..NewAt(b, ops, c')], tier)
    ensures GroupRefined(r', p, q, old_, a, new_, b, ops, c, c', tier)
  {
    assert Part(old_, OldAt(a, ops, c), OldAt(a, ops, c')) == old_[OldAt(a, ops, c)..OldAt(a, ops, c')];
    assert Part(new_, NewAt(b, ops, c), NewAt(b, ops, c')) == new_[NewAt(b, ops, c)..NewAt(b, ops, c')];
    assert p + OldAt(a, ops, c) == |OldSide(r)| && q + NewAt(b, ops, c) == |NewSide(r)|;
  }
}
