/**
  The projection views (crates/nisaba-core/src/projection.rs).

  A character is inserted, deleted or secret when some mark of that kind covers it. The
  functions state that directly; the methods compute it the way the source does, by OR-ing
  one bit per mark into a vector of flags and filtering the text by the flags.
 */
module Projection {
  import opened Arithmetic
  import opened Marks
  import opened Survivors

  const FLAG_INSERT: bv8 := 1
  const FLAG_DELETE: bv8 := 2
  const FLAG_SECRET: bv8 := 4

  /** The views that filter characters. The redline view is in Redline.dfy. */
  datatype View = Baseline | Proposed | Public | Editor

  /** Some mark of kind `kind` covers character `c`. */
  predicate Covered(marks: MarkSet, kind: MarkKind, c: int) {
    exists id <- marks :: marks[id].kind == kind && marks[id].range.Covers(c)
  }

  predicate Hides(marks: MarkSet, view: View, c: int) {
    match view
    case Baseline => Covered(marks, Insert, c)
    case Proposed => Covered(marks, Delete, c)
    case Public => Covered(marks, Delete, c) || Covered(marks, Secret, c)
    case Editor => false
  }

  function Hidden(n: nat, marks: MarkSet, view: View): (r: seq<bool>)
    ensures |r| == n
  {
    seq(n, c requires 0 <= c < n => Hides(marks, view, c))
  }

  /** The text of a view: every character the view does not hide, in order. */
  function Project(text: string, marks: MarkSet, view: View): string {
    Kept(text, Hidden(|text|, marks, view))
  }

  // ------------------------------------------------------------------ the flag vector

  function Bit(kind: MarkKind): bv8 {
    match kind
    case Insert => FLAG_INSERT
    case Delete => FLAG_DELETE
    case Secret => FLAG_SECRET
    case Comment => 0
  }

  /** Flag byte `f` of character `c` once mark `m` has contributed. */
  function Flagged(f: bv8, m: Mark, c: nat): bv8 {
    if m.kind.Comment? || !m.range.Covers(c) then f else f | Bit(m.kind)
  }

  /** The flags character `c` has collected from the first `k` marks. */
  ghost function FlagAfter(ms: seq<Mark>, k: nat, c: nat): bv8
    requires k <= |ms|
  {
    if k == 0 then 0 else Flagged(FlagAfter(ms, k - 1, c), ms[k - 1], c)
  }

  lemma OrBit(a: bv8, b: bv8, flag: bv8)
    requires flag == 1 || flag == 2 || flag == 4
    ensures (a | b) & flag != 0 <==> a & flag != 0 || b & flag != 0
  {
  }

  lemma {:induction false} FlagAfterMeans(ms: seq<Mark>, k: nat, c: nat, kind: MarkKind)
    requires k <= |ms| && !kind.Comment?
    ensures FlagAfter(ms, k, c) & Bit(kind) != 0 <==>
            exists i :: 0 <= i < k && ms[i].kind == kind && ms[i].range.Covers(c)
  {
    if k > 0 {
      FlagAfterMeans(ms, k - 1, c, kind);
      var m := ms[k - 1];
      OrBit(FlagAfter(ms, k - 1, c), Bit(m.kind), Bit(kind));
      assert Bit(m.kind) & Bit(kind) != 0 <==> m.kind == kind;
    }
  }

  /** The finished flag byte of a character decides its visibility, kind by kind. */
  lemma FlagMeansCovered(marks: MarkSet, c: nat, kind: MarkKind)
    requires !kind.Comment?
    ensures var ms := InOrder(marks);
            FlagAfter(ms, |ms|, c) & Bit(kind) != 0 <==> Covered(marks, kind, c)
  {
    var ms := InOrder(marks);
    FlagAfterMeans(ms, |ms|, c, kind);
    if Covered(marks, kind, c) {
      var id :| id in marks && marks[id].kind == kind && marks[id].range.Covers(c);
      var i := InOrderHas(marks, id);
    } else if i :| 0 <= i < |ms| && ms[i].kind == kind && ms[i].range.Covers(c) {
      InOrderAt(marks, i);
    }
  }

  ghost predicate FlagsOf(flags: seq<bv8>, text: string, marks: MarkSet) {
    && |flags| == |text|
    && forall c :: 0 <= c < |text| ==>
        && (flags[c] & FLAG_INSERT != 0 <==> Covered(marks, Insert, c))
        && (flags[c] & FLAG_DELETE != 0 <==> Covered(marks, Delete, c))
        && (flags[c] & FLAG_SECRET != 0 <==> Covered(marks, Secret, c))
  }

  lemma FinishedFlags(flags: seq<bv8>, text: string, marks: MarkSet)
    requires |flags| == |text|
    requires var ms := InOrder(marks);
             forall c :: 0 <= c < |text| ==> flags[c] == FlagAfter(ms, |ms|, c)
    ensures FlagsOf(flags, text, marks)
  {
    forall c | 0 <= c < |text|
      ensures flags[c] & FLAG_INSERT != 0 <==> Covered(marks, Insert, c)
      ensures flags[c] & FLAG_DELETE != 0 <==> Covered(marks, Delete, c)
      ensures flags[c] & FLAG_SECRET != 0 <==> Covered(marks, Secret, c)
    {
      FlagMeansCovered(marks, c, Insert);
      FlagMeansCovered(marks, c, Delete);
      FlagMeansCovered(marks, c, Secret);
    }
  }

  method CharFlags(text: string, marks: MarkSet) returns (flags: seq<bv8>)
    ensures FlagsOf(flags, text, marks)
  {
    flags := FillFlags(|text|, InOrder(marks));
    FinishedFlags(flags, text, marks);
  }

  /** The outer loop of `char_flags`, mark by mark. */
  method FillFlags(n: nat, ms: seq<Mark>) returns (result: seq<bv8>)
    ensures |result| == n
    ensures forall c :: 0 <= c < n ==> result[c] == FlagAfter(ms, |ms|, c)
  {
    var flags := new bv8[n](_ => 0);
    for k := 0 to |ms|
      invariant forall c :: 0 <= c < n ==> flags[c] == FlagAfter(ms, k, c)
    {
      FlagMark(flags, ms[k]);
    }
    result := flags[..];
  }

  /** The body of that loop: OR the mark's bit into the characters it covers. */
  method FlagMark(flags: array<bv8>, m: Mark)
    modifies flags
    ensures forall c :: 0 <= c < flags.Length ==> flags[c] == Flagged(old(flags[c]), m, c)
  {
    if m.kind.Comment? {
      return;
    }
    var s, e := Min(m.range.start, flags.Length), Min(m.range.end, flags.Length);
    if s >= e {
      return;
    }
    for i := s to e
      invariant forall c :: 0 <= c < flags.Length ==>
                  flags[c] == if c < i then Flagged(old(flags[c]), m, c) else old(flags[c])
    {
      flags[i] := flags[i] | Bit(m.kind);
    }
  }

  predicate Keeps(view: View, f: bv8) {
    match view
    case Baseline => f & FLAG_INSERT == 0
    case Proposed => f & FLAG_DELETE == 0
    case Public => f & FLAG_DELETE == 0 && f & FLAG_SECRET == 0
    case Editor => true
  }

  method ProjectText(text: string, marks: MarkSet, view: View) returns (out: string)
    ensures out == Project(text, marks, view)
  {
    if view.Editor? {
      EditorIsText(text, marks);
      return text;
    }
    var flags := CharFlags(text, marks);
    ghost var hidden := Hidden(|text|, marks, view);
    out := [];
    for i := 0 to |text|
      invariant out == KeptTo(text, hidden, i)
    {
      if Keeps(view, flags[i]) {
        out := out + [text[i]];
      }
    }
  }

  lemma EditorIsText(text: string, marks: MarkSet)
    ensures Project(text, marks, Editor) == text
  {
    assert Hidden(|text|, marks, Editor) == Nothing(|text|);
    KeptNothing(text, |text|);
  }
}
