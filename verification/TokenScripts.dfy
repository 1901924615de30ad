/**
  Texts as lines and words, and scripts over them (`split_lines`, `split_words` and the
  cursors of `diff_region` in crates/nisaba-core/src/review.rs).
 */
module TokenScripts {
  import opened Unicode
  import opened Lcs
  import opened EditScripts
  import opened Hirschberg
  import opened ChangeLists

  datatype Tier = Line | Word | Char {
    function Next(): Tier { if Line? then Word else Char }

    function Rank(): nat { if Line? then 2 else if Word? then 1 else 0 }
  }

  // ------------------------------------------------------------------ tokens

  /** The first `k` tokens, end to end, are the first `p` characters of the text. */
  ghost predicate CoversTo(tokens: seq<string>, k: nat, text: string, p: nat)
    requires k <= |tokens| && p <= |text|
  {
    if k == 0 then p == 0
    else
      var n := |tokens[k - 1]|;
      n <= p && text[p - n..p] == tokens[k - 1] && CoversTo(tokens, k - 1, text, p - n)
  }

  ghost predicate Covers(tokens: seq<string>, text: string, p: nat)
    requires p <= |text|
  {
    CoversTo(tokens, |tokens|, text, p)
  }

  lemma {:induction false} CoversFrame(xs: seq<string>, ys: seq<string>, k: nat, text: string, p: nat)
    requires k <= |xs| && k <= |ys| && p <= |text|
    requires forall t :: 0 <= t < k ==> xs[t] == ys[t]
    requires CoversTo(xs, k, text, p)
    ensures CoversTo(ys, k, text, p)
  {
    if k > 0 { CoversFrame(xs, ys, k - 1, text, p - |xs[k - 1]|); }
  }

  /** Cutting the next token off the text. */
  lemma CoversSnoc(tokens: seq<string>, text: string, start: nat, end: nat)
    requires start <= end <= |text| && Covers(tokens, text, start)
    ensures Covers(tokens + [text[start..end]], text, end)
  {
    CoversFrame(tokens, tokens + [text[start..end]], |tokens|, text, start);
  }

  ghost predicate NonEmptyTokens(tokens: seq<string>) {
    forall k :: 0 <= k < |tokens| ==> tokens[k] != []
  }

  /** A line: characters without a newline, then a newline unless the text ended. */
  predicate IsLine(t: string, terminated: bool) {
    && t != []
    && (forall i :: 0 <= i < |t| - 1 ==> t[i] != '\n')
    && (terminated ==> t[|t| - 1] == '\n')
  }

  ghost predicate Lines(lines: seq<string>, terminated: nat) {
    forall k :: 0 <= k < |lines| ==> IsLine(lines[k], k < terminated)
  }

  lemma LinesSnoc(lines: seq<string>, t: string, terminated: bool)
    requires Lines(lines, |lines|) && IsLine(t, terminated)
    ensures Lines(lines + [t], if terminated then |lines| + 1 else |lines|)
  {
  }

  lemma CutLine(text: string, start: nat, end: nat)
    requires start < end <= |text| && forall k :: start <= k < end - 1 ==> text[k] != '\n'
    ensures IsLine(text[start..end], text[end - 1] == '\n')
  {
  }

  /** Every line but the last ends in its newline, and no line has another one. */
  method SplitLines(text: string) returns (lines: seq<string>)
    ensures Covers(lines, text, |text|)
    ensures lines != [] ==> Lines(lines, |lines| - 1)
  {
    lines := [];
    var start := 0;
    for i := 0 to |text|
      invariant start <= i
      invariant Covers(lines, text, start)
      invariant forall k :: start <= k < i ==> text[k] != '\n'
      invariant Lines(lines, |lines|)
    {
      if text[i] == '\n' {
        CoversSnoc(lines, text, start, i + 1);
        CutLine(text, start, i + 1);
        LinesSnoc(lines, text[start..i + 1], true);
        lines := lines + [text[start..i + 1]];
        start := i + 1;
      }
    }
    if start < |text| {
      CoversSnoc(lines, text, start, |text|);
      CutLine(text, start, |text|);
      LinesSnoc(lines, text[start..|text|], false);
      lines := lines + [text[start..|text|]];
    }
  }

  /** A non-empty run of whitespace, or of anything else. */
  predicate IsAtom(t: string, white: bool) {
    t != [] && forall i :: 0 <= i < |t| ==> IsWhitespace(t[i]) == white
  }

  /** Atoms alternate, starting with `white`. */
  ghost predicate Atoms(words: seq<string>, white: bool) {
    forall k :: 0 <= k < |words| ==> IsAtom(words[k], white == (k % 2 == 0))
  }

  method SplitWords(text: string) returns (words: seq<string>)
    ensures Covers(words, text, |text|)
    ensures text != [] ==> Atoms(words, IsWhitespace(text[0]))
    ensures text == [] ==> words == []
  {
    words := [];
    if text == [] {
      return;
    }
    var start := 0;
    var first := IsWhitespace(text[0]);
    var inWhite := first;
    for i := 0 to |text|
      invariant start <= i && (i > 0 ==> start < i)
      invariant i == 0 ==> inWhite == IsWhitespace(text[0])
      invariant Covers(words, text, start)
      invariant inWhite == (first == (|words| % 2 == 0))
      invariant forall k :: start <= k < i ==> IsWhitespace(text[k]) == inWhite
      invariant Atoms(words, first)
    {
      if IsWhitespace(text[i]) != inWhite {
        CoversSnoc(words, text, start, i);
        words := words + [text[start..i]];
        start := i;
        inWhite := !inWhite;
      }
    }
    CoversSnoc(words, text, start, |text|);
    words := words + [text[start..|text|]];
  }

  // ------------------------------------------------------------------ cursors

  /** Elements of the old side consumed by the first `k` runs. */
  function OldCursor(ops: seq<DiffOp>, k: nat): nat
    requires k <= |ops|
  {
    if k == 0 then 0 else OldCursor(ops, k - 1) + if ops[k - 1].Insert? then 0 else ops[k - 1].n
  }

  function NewCursor(ops: seq<DiffOp>, k: nat): nat
    requires k <= |ops|
  {
    if k == 0 then 0 else NewCursor(ops, k - 1) + if ops[k - 1].Delete? then 0 else ops[k - 1].n
  }

  lemma {:induction false} CursorsEnd<T>(ops: seq<DiffOp>, k: nat, a: seq<T>, b: seq<T>, i: nat, j: nat)
    requires k <= |ops| && i <= |a| && j <= |b| && ScriptTo(ops, k, a, b, i, j)
    ensures OldCursor(ops, k) == i && NewCursor(ops, k) == j
  {
    if k > 0 {
      var n := ops[k - 1].n;
      match ops[k - 1]
      case Equal(_) => CursorsEnd(ops, k - 1, a, b, i - n, j - n);
      case Delete(_) => CursorsEnd(ops, k - 1, a, b, i - n, j);
      case Insert(_) => CursorsEnd(ops, k - 1, a, b, i, j - n);
    }
  }

  /** Every prefix of a script is a script up to its cursors. */
  lemma {:induction false} ScriptPrefix<T>(ops: seq<DiffOp>, m: nat, a: seq<T>, b: seq<T>, i: nat, j: nat, k: nat)
    requires k <= m <= |ops| && i <= |a| && j <= |b| && ScriptTo(ops, m, a, b, i, j)
    ensures OldCursor(ops, k) <= i && NewCursor(ops, k) <= j
    ensures ScriptTo(ops, k, a, b, OldCursor(ops, k), NewCursor(ops, k))
  {
    if k == m {
      CursorsEnd(ops, m, a, b, i, j);
    } else {
      var n := ops[m - 1].n;
      match ops[m - 1]
      case Equal(_) => ScriptPrefix(ops, m - 1, a, b, i - n, j - n, k);
      case Delete(_) => ScriptPrefix(ops, m - 1, a, b, i - n, j, k);
      case Insert(_) => ScriptPrefix(ops, m - 1, a, b, i, j - n, k);
    }
  }

  /** `byte_len` of the first `k` tokens. */
  function Offset(tokens: seq<string>, k: nat): nat
    requires k <= |tokens|
  {
    if k == 0 then 0 else Offset(tokens, k - 1) + |tokens[k - 1]|
  }

  lemma {:induction false} OffsetEnd(tokens: seq<string>, k: nat, text: string, p: nat)
    requires k <= |tokens| && p <= |text| && CoversTo(tokens, k, text, p)
    ensures Offset(tokens, k) == p
  {
    if k > 0 { OffsetEnd(tokens, k - 1, text, p - |tokens[k - 1]|); }
  }

  lemma {:induction false} CoversPrefix(tokens: seq<string>, m: nat, text: string, p: nat, k: nat)
    requires k <= m <= |tokens| && p <= |text| && CoversTo(tokens, m, text, p)
    ensures Offset(tokens, k) <= p && CoversTo(tokens, k, text, Offset(tokens, k))
  {
    if k == m {
      OffsetEnd(tokens, m, text, p);
    } else {
      CoversPrefix(tokens, m - 1, text, p - |tokens[m - 1]|, k);
    }
  }

  lemma {:induction false} OffsetMonotone(tokens: seq<string>, i: nat, j: nat)
    requires i <= j <= |tokens|
    ensures Offset(tokens, i) <= Offset(tokens, j)
    ensures NonEmptyTokens(tokens) && i < j ==> Offset(tokens, i) < Offset(tokens, j)
  {
    if i < j { OffsetMonotone(tokens, i, j - 1); }
  }

  /** Tokens `i` to `j`, end to end. */
  function TokenText(tokens: seq<string>, i: nat, j: nat): string
    requires i <= j <= |tokens|
  {
    if i == j then [] else TokenText(tokens, i, j - 1) + tokens[j - 1]
  }

  /** The tokens of a text stand in it one after the other. */
  lemma {:induction false} TokensStand(tokens: seq<string>, i: nat, j: nat, text: string)
    requires i <= j <= |tokens| && Covers(tokens, text, |text|)
    ensures Offset(tokens, i) <= Offset(tokens, j) <= |text|
    ensures text[Offset(tokens, i)..Offset(tokens, j)] == TokenText(tokens, i, j)
  {
    CoversPrefix(tokens, |tokens|, text, |text|, j);
    if i < j {
      TokensStand(tokens, i, j - 1, text);
      SliceJoin(text, Offset(tokens, i), Offset(tokens, j - 1), Offset(tokens, j));
    }
  }

  lemma {:induction false} MatchTokens(a: seq<string>, b: seq<string>, i: nat, j: nat, n: nat)
    requires i + n <= |a| && j + n <= |b| && Match(a, b, i, j, n)
    ensures TokenText(a, i, i + n) == TokenText(b, j, j + n)
  {
    if n > 0 { MatchTokens(a, b, i, j, n - 1); }
  }

  /** Equal token runs are equal stretches of text. */
  lemma MatchTexts(a: seq<string>, b: seq<string>, i: nat, j: nat, n: nat, old_: string, new_: string)
    requires i + n <= |a| && j + n <= |b| && Match(a, b, i, j, n)
    requires Covers(a, old_, |old_|) && Covers(b, new_, |new_|)
    ensures Offset(a, i) <= Offset(a, i + n) <= |old_| && Offset(b, j) <= Offset(b, j + n) <= |new_|
    ensures old_[Offset(a, i)..Offset(a, i + n)] == new_[Offset(b, j)..Offset(b, j + n)]
  {
    TokensStand(a, i, i + n, old_);
    TokensStand(b, j, j + n, new_);
    MatchTokens(a, b, i, j, n);
  }

  // ------------------------------------------------------------------ scripts of tokens

  /** Run `k` of a script lies inside both sides, and an equal run matches. */
  lemma RunFits<T>(ops: seq<DiffOp>, k: nat, a: seq<T>, b: seq<T>)
    requires k < |ops| && Script(ops, a, b, |a|, |b|)
    ensures OldCursor(ops, k) <= OldCursor(ops, k + 1) <= |a| && NewCursor(ops, k) <= NewCursor(ops, k + 1) <= |b|
    ensures ops[k].Equal? ==> Match(a, b, OldCursor(ops, k), NewCursor(ops, k), ops[k].n)
  {
    ScriptPrefix(ops, |ops|, a, b, |a|, |b|, k + 1);
  }

  /** The cursors of the loop: runs done, tokens and characters consumed on each side. */
  datatype Cursors = Cursors(i: nat, ai: nat, bi: nat, oldAt: nat, newAt: nat)

  ghost predicate CursorsAt(c: Cursors, old_: string, a: seq<string>, new_: string, b: seq<string>, ops: seq<DiffOp>) {
    && c.i <= |ops|
    && c.ai == OldCursor(ops, c.i) <= |a| && c.bi == NewCursor(ops, c.i) <= |b|
    && c.oldAt == Offset(a, c.ai) <= |old_| && c.newAt == Offset(b, c.bi) <= |new_|
  }

  /** The runs from `i` to `i'` are one equal run, or all changes up to the next equal run. */
  ghost predicate NextGroup(ops: seq<DiffOp>, i: nat, i': nat) {
    && i < i' <= |ops|
    && (ops[i].Equal? ==> i' == i + 1)
    && (!ops[i].Equal? ==> (forall k :: i <= k < i' ==> !ops[k].Equal?) && (i' < |ops| ==> ops[i'].Equal?))
  }

  /** A script of tokens that spell two texts. */
  ghost predicate TokenScript(old_: string, a: seq<string>, new_: string, b: seq<string>, ops: seq<DiffOp>) {
    && Script(ops, a, b, |a|, |b|) && Compact(ops)
    && Covers(a, old_, |old_|) && Covers(b, new_, |new_|)
    && NonEmptyTokens(a) && NonEmptyTokens(b)
  }

  /** The tokens of a text at a tier: its lines, or its words and blanks. */
  ghost predicate TokensOf(tokens: seq<string>, text: string, tier: Tier) {
    && Covers(tokens, text, |text|) && NonEmptyTokens(tokens)
    && (tier.Line? && tokens != [] ==> Lines(tokens, |tokens| - 1))
    && (tier.Word? && text != [] ==> Atoms(tokens, IsWhitespace(text[0])))
  }

  /** The script of the tokens of two texts, which keeps as many as any within the work limit. */
  ghost predicate TierScript(old_: string, a: seq<string>, new_: string, b: seq<string>, ops: seq<DiffOp>, tier: Tier) {
    && TokenScript(old_, a, new_, b, ops)
    && (|a| * |b| <= DIFF_WORK_LIMIT ==> Equals(ops) == LcsLen(a, b))
    && TokensOf(a, old_, tier) && TokensOf(b, new_, tier)
  }

  lemma {:induction false} CursorsGrow(ops: seq<DiffOp>, i: nat, i': nat)
    requires i <= i' <= |ops| && Compact(ops)
    ensures OldCursor(ops, i) <= OldCursor(ops, i') && NewCursor(ops, i) <= NewCursor(ops, i')
    ensures i < i' ==> OldCursor(ops, i) < OldCursor(ops, i') || NewCursor(ops, i) < NewCursor(ops, i')
  {
    if i < i' { CursorsGrow(ops, i, i' - 1); }
  }

  /** The text regions of a group lie in the texts, and one of them is not empty. */
  lemma RegionBounds(old_: string, a: seq<string>, new_: string, b: seq<string>, ops: seq<DiffOp>, i: nat, i': nat)
    requires i < i' <= |ops| && TokenScript(old_, a, new_, b, ops)
    ensures OldCursor(ops, i) <= OldCursor(ops, i') <= |a| && NewCursor(ops, i) <= NewCursor(ops, i') <= |b|
    ensures Offset(a, OldCursor(ops, i)) <= Offset(a, OldCursor(ops, i')) <= |old_|
    ensures Offset(b, NewCursor(ops, i)) <= Offset(b, NewCursor(ops, i')) <= |new_|
    ensures Offset(a, OldCursor(ops, i)) < Offset(a, OldCursor(ops, i'))
            || Offset(b, NewCursor(ops, i)) < Offset(b, NewCursor(ops, i'))
  {
    ScriptPrefix(ops, |ops|, a, b, |a|, |b|, i');
    CursorsGrow(ops, i, i');
    OffsetMonotone(a, OldCursor(ops, i), OldCursor(ops, i'));
    OffsetMonotone(b, NewCursor(ops, i), NewCursor(ops, i'));
    CoversPrefix(a, |a|, old_, |old_|, OldCursor(ops, i'));
    CoversPrefix(b, |b|, new_, |new_|, NewCursor(ops, i'));
  }

  /** An equal run of tokens is the same text on both sides. */
  lemma EqualTexts(old_: string, a: seq<string>, new_: string, b: seq<string>, ops: seq<DiffOp>, k: nat)
    requires TokenScript(old_, a, new_, b, ops) && k < |ops| && ops[k].Equal?
    ensures OldCursor(ops, k + 1) <= |a| && NewCursor(ops, k + 1) <= |b|
    ensures Offset(a, OldCursor(ops, k)) <= Offset(a, OldCursor(ops, k + 1)) <= |old_|
    ensures Offset(b, NewCursor(ops, k)) <= Offset(b, NewCursor(ops, k + 1)) <= |new_|
    ensures old_[Offset(a, OldCursor(ops, k))..Offset(a, OldCursor(ops, k + 1))]
         == new_[Offset(b, NewCursor(ops, k))..Offset(b, NewCursor(ops, k + 1))]
  {
    RunFits(ops, k, a, b);
    MatchTexts(a, b, OldCursor(ops, k), NewCursor(ops, k), ops[k].n, old_, new_);
  }

  /** `byte_len(&tokens[i..j])`. */
  function SpanLength(tokens: seq<string>, i: nat, j: nat): (r: nat)
    requires i <= j <= |tokens|
    ensures Offset(tokens, j) == Offset(tokens, i) + r
  {
    if i == j then 0 else SpanLength(tokens, i, j - 1) + |tokens[j - 1]|
  }
}
