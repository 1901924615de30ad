/**
  The redline projection (crates/nisaba-core/src/redline.rs): every character is kept and
  markers are injected around the inserted and deleted runs.
 */
module Redline {
  import opened Wrappers
  import opened Marks
  import opened Survivors
  import opened Projection
  import opened Delimiters

  // ------------------------------------------------------------------ marker styles

  datatype Style = Style(
    insertOpen: string, insertClose: string,
    deleteOpen: string, deleteClose: string,
    replacedOpen: string, replacedClose: string)

  datatype Problem =
    | InsertPair | InsertOpenStray | InsertCloseStray
    | DeletePair | DeleteOpenStray | DeleteCloseStray
    | ReplacedOpenIncomplete | ReplacedCloseIncomplete

  /** The contract of a style: every marker is a complete fragment, pair by pair. */
  predicate ValidStyle(style: Style) {
    && WrapsOneBlock(style.insertOpen, style.insertClose)
    && CleanButSquares(style.insertOpen) && CleanButSquares(style.insertClose)
    && WrapsOneBlock(style.deleteOpen, style.deleteClose)
    && CleanButSquares(style.deleteOpen) && CleanButSquares(style.deleteClose)
    && Classify(style.replacedOpen).InlineSafe? && Classify(style.replacedClose).InlineSafe?
  }

  /** `RedlineStyle::validate`: no problem is reported exactly when the contract holds. */
  method ValidateStyle(style: Style) returns (problems: seq<Problem>)
    ensures problems == [] <==> ValidStyle(style)
  {
    var insertProblems := CheckPair(style.insertOpen, style.insertClose, InsertPair, InsertOpenStray, InsertCloseStray);
    var deleteProblems := CheckPair(style.deleteOpen, style.deleteClose, DeletePair, DeleteOpenStray, DeleteCloseStray);
    problems := insertProblems + deleteProblems;
    var open := ClassifyInlineSafety(style.replacedOpen);
    if !open.InlineSafe? {
      problems := problems + [ReplacedOpenIncomplete];
    }
    var close := ClassifyInlineSafety(style.replacedClose);
    if !close.InlineSafe? {
      problems := problems + [ReplacedCloseIncomplete];
    }
  }

  method CheckPair(open: string, close: string, pair: Problem, openStray: Problem, closeStray: Problem)
    returns (problems: seq<Problem>)
    ensures problems == [] <==> WrapsOneBlock(open, close) && CleanButSquares(open) && CleanButSquares(close)
  {
    problems := [];
    var ok := OpensOneContentBlock(open, close);
    if !ok {
      problems := problems + [pair];
    }
    ok := NonSquareDelimitersClean(open);
    if !ok {
      problems := problems + [openStray];
    }
    ok := NonSquareDelimitersClean(close);
    if !ok {
      problems := problems + [closeStray];
    }
  }

  // ------------------------------------------------------------------ runs

  datatype RunKind = Plain | Inserted | Deleted

  /** Deletion takes precedence where a character is both inserted and deleted. */
  function KindAt(marks: MarkSet, c: int): RunKind {
    if Covered(marks, Delete, c) then Deleted
    else if Covered(marks, Insert, c) then Inserted
    else Plain
  }

  datatype Segment = Segment(start: nat, end: nat, kind: RunKind)

  /** Where segment `k` begins. */
  function StartOf(segs: seq<Segment>, k: nat): nat
    requires k <= |segs|
  {
    if k == 0 then 0 else segs[k - 1].end
  }

  /** Segment `k` starts where the one before ended, is uniform, and cannot be extended. */
  ghost predicate IsRun(segs: seq<Segment>, k: nat, n: nat, marks: MarkSet)
    requires k < |segs|
  {
    var s := segs[k];
    && s.start == StartOf(segs, k) < s.end <= n
    && (forall c :: s.start <= c < s.end ==> KindAt(marks, c) == s.kind)
    && (s.end < n ==> KindAt(marks, s.end) != s.kind)
  }

  /** The maximal runs of one kind, in order, covering the first `upTo` characters. */
  ghost predicate Runs(segs: seq<Segment>, n: nat, marks: MarkSet, upTo: nat) {
    StartOf(segs, |segs|) == upTo && forall k :: 0 <= k < |segs| ==> IsRun(segs, k, n, marks)
  }

  function InlineMarkers(kind: RunKind, style: Style): (string, string) {
    match kind
    case Inserted => (style.insertOpen, style.insertClose)
    case Deleted => (style.deleteOpen, style.deleteClose)
    case Plain => (style.replacedOpen, style.replacedClose)
  }

  /** One run, wrapped inline when its delimiters balance and as a replaced block otherwise. */
  function Emit(span: string, kind: RunKind, style: Style): string {
    if kind.Plain? then span
    else if Classify(span).InlineSafe? then InlineMarkers(kind, style).0 + span + InlineMarkers(kind, style).1
    else style.replacedOpen + span + style.replacedClose
  }

  function ConcatTo(parts: seq<string>, k: nat): string
    requires k <= |parts|
  {
    if k == 0 then [] else ConcatTo(parts, k - 1) + parts[k - 1]
  }

  /** Every run as it is emitted. */
  function Pieces(text: string, segs: seq<Segment>, style: Style): (r: seq<string>)
    requires forall i :: 0 <= i < |segs| ==> segs[i].start <= segs[i].end <= |text|
    ensures |r| == |segs|
  {
    seq(|segs|, i requires 0 <= i < |segs| => Emit(text[segs[i].start..segs[i].end], segs[i].kind, style))
  }

  /** Every run as it stands in the source. */
  function Spans(text: string, segs: seq<Segment>): (r: seq<string>)
    requires forall i :: 0 <= i < |segs| ==> segs[i].start <= segs[i].end <= |text|
    ensures |r| == |segs|
  {
    seq(|segs|, i requires 0 <= i < |segs| => text[segs[i].start..segs[i].end])
  }

  function Concat(parts: seq<string>): string { ConcatTo(parts, |parts|) }

  datatype RunRecord = RunRecord(range: TextRange, kind: MarkKind, safety: InlineSafety)

  /** The report entry of a changed run; plain text has none. */
  function RecordOf(text: string, s: Segment): seq<RunRecord>
    requires s.start <= s.end <= |text|
  {
    if s.kind.Plain? then []
    else [RunRecord(TextRange(SaturatingU32(s.start), SaturatingU32(s.end)),
                    if s.kind.Inserted? then Insert else Delete,
                    Classify(text[s.start..s.end]))]
  }

  function RecordsTo(text: string, segs: seq<Segment>, k: nat): seq<RunRecord>
    requires k <= |segs| && forall i :: 0 <= i < |segs| ==> segs[i].start <= segs[i].end <= |text|
  {
    if k == 0 then [] else RecordsTo(text, segs, k - 1) + RecordOf(text, segs[k - 1])
  }

  // ------------------------------------------------------------------ the emitter

  function FlagKind(f: bv8): RunKind {
    if f & FLAG_DELETE != 0 then Deleted
    else if f & FLAG_INSERT != 0 then Inserted
    else Plain
  }

  /** The span between two markers. */
  predicate Wrapped(piece: string, open: string, span: string, close: string) { piece == open + span + close }

  /** Plain text stands as it is; a change stands between the markers of its kind, or of a replaced block. */
  lemma EmitWraps(span: string, kind: RunKind, style: Style)
    ensures var piece, safe := Emit(span, kind, style), Classify(span).InlineSafe?;
            && (kind.Plain? ==> piece == span)
            && (kind.Inserted? && safe ==> Wrapped(piece, style.insertOpen, span, style.insertClose))
            && (kind.Deleted? && safe ==> Wrapped(piece, style.deleteOpen, span, style.deleteClose))
            && (!kind.Plain? && !safe ==> Wrapped(piece, style.replacedOpen, span, style.replacedClose))
  {
  }

  /** One changed run: appended between its markers, and recorded under its kind and verdict. */
  method EmitChange(out: string, runs: seq<RunRecord>, text: string, s: Segment, style: Style)
    returns (out': string, runs': seq<RunRecord>)
    requires s.start <= s.end <= |text| && !s.kind.Plain?
    ensures out' == out + Emit(text[s.start..s.end], s.kind, style)
    ensures runs' == runs + RecordOf(text, s)
    ensures var span := text[s.start..s.end];
            if !Classify(span).InlineSafe? then out' == out + (style.replacedOpen + span + style.replacedClose)
            else if s.kind.Inserted? then out' == out + (style.insertOpen + span + style.insertClose)
            else out' == out + (style.deleteOpen + span + style.deleteClose)
    ensures |runs'| == |runs| + 1
    ensures var record := runs'[|runs|];
            && (record.kind.Insert? <==> s.kind.Inserted?) && (record.kind.Delete? <==> s.kind.Deleted?)
            && record.safety == Classify(text[s.start..s.end])
            && (|text| <= U32_MAX ==> record.range == TextRange(s.start, s.end))
  {
    var span := text[s.start..s.end];
    var safety := ClassifyInlineSafety(span);
    if safety.InlineSafe? {
      var (open, close) := InlineMarkers(s.kind, style);
      out' := out + (open + span + close);
    } else {
      out' := out + (style.replacedOpen + span + style.replacedClose);
    }
    runs' := runs + [RunRecord(TextRange(SaturatingU32(s.start), SaturatingU32(s.end)),
                               if s.kind.Inserted? then Insert else Delete, safety)];
  }

  method RunEnd(flags: seq<bv8>, start: nat, ghost text: string, ghost marks: MarkSet) returns (end: nat)
    requires FlagsOf(flags, text, marks) && start < |text|
    ensures start < end <= |text|
    ensures forall c :: start <= c < end ==> KindAt(marks, c) == KindAt(marks, start)
    ensures end < |text| ==> KindAt(marks, end) != KindAt(marks, start)
  {
    end := start;
    while end < |flags| && FlagKind(flags[end]) == FlagKind(flags[start])
      invariant start <= end <= |text|
      invariant forall c :: start <= c < end ==> KindAt(marks, c) == KindAt(marks, start)
    {
      end := end + 1;
    }
  }

  lemma RunsSnoc(segs: seq<Segment>, n: nat, marks: MarkSet, s: Segment)
    requires Runs(segs, n, marks, s.start) && s.start < s.end <= n
    requires forall c :: s.start <= c < s.end ==> KindAt(marks, c) == s.kind
    requires s.end < n ==> KindAt(marks, s.end) != s.kind
    ensures Runs(segs + [s], n, marks, s.end)
  {
    var r := segs + [s];
    forall k | 0 <= k < |r| ensures IsRun(r, k, n, marks) {
      if k < |segs| { assert IsRun(segs, k, n, marks); }
    }
  }

  lemma {:induction false} ConcatFrame(xs: seq<string>, ys: seq<string>, k: nat)
    requires k <= |xs| && k <= |ys| && forall i :: 0 <= i < k ==> xs[i] == ys[i]
    ensures ConcatTo(xs, k) == ConcatTo(ys, k)
  {
    if k > 0 { ConcatFrame(xs, ys, k - 1); }
  }

  lemma ConcatSnoc(parts: seq<string>, p: string)
    ensures Concat(parts + [p]) == Concat(parts) + p
  {
    ConcatFrame(parts, parts + [p], |parts|);
  }

  lemma {:induction false} RecordsFrame(text: string, xs: seq<Segment>, ys: seq<Segment>, k: nat)
    requires k <= |xs| && k <= |ys| && forall i :: 0 <= i < k ==> xs[i] == ys[i]
    requires forall i :: 0 <= i < |xs| ==> xs[i].start <= xs[i].end <= |text|
    requires forall i :: 0 <= i < |ys| ==> ys[i].start <= ys[i].end <= |text|
    ensures RecordsTo(text, xs, k) == RecordsTo(text, ys, k)
  {
    if k > 0 { RecordsFrame(text, xs, ys, k - 1); }
  }

  /** The output and the report, as functions of the run list. */
  ghost predicate Redlined(out: string, runs: seq<RunRecord>, text: string, segs: seq<Segment>, style: Style) {
    && (forall i :: 0 <= i < |segs| ==> segs[i].start <= segs[i].end <= |text|)
    && out == Concat(Pieces(text, segs, style))
    && runs == RecordsTo(text, segs, |segs|)
  }

  lemma PiecesSnoc(text: string, segs: seq<Segment>, s: Segment, style: Style)
    requires s.start <= s.end <= |text| && forall i :: 0 <= i < |segs| ==> segs[i].start <= segs[i].end <= |text|
    ensures Concat(Pieces(text, segs + [s], style)) ==
            Concat(Pieces(text, segs, style)) + Emit(text[s.start..s.end], s.kind, style)
  {
    var piece := Emit(text[s.start..s.end], s.kind, style);
    assert Pieces(text, segs + [s], style) == Pieces(text, segs, style) + [piece];
    ConcatSnoc(Pieces(text, segs, style), piece);
  }

  lemma RedlinedSnoc(out: string, runs: seq<RunRecord>, text: string, segs: seq<Segment>, s: Segment, style: Style)
    requires Redlined(out, runs, text, segs, style) && s.start <= s.end <= |text|
    ensures Redlined(out + Emit(text[s.start..s.end], s.kind, style), runs + RecordOf(text, s), text, segs + [s], style)
  {
    PiecesSnoc(text, segs, s, style);
    RecordsFrame(text, segs, segs + [s], |segs|);
  }

  /** `redline_with_report`: the maximal runs of the text, each emitted and recorded in order. */
  method RedlineWithReport(text: string, marks: MarkSet, style: Style)
    returns (out: string, runs: seq<RunRecord>, ghost segs: seq<Segment>)
    ensures Runs(segs, |text|, marks, |text|)
    ensures Redlined(out, runs, text, segs, style)
    ensures ValidStyle(style) ==> Classify(out) == Classify(text)
    ensures |text| <= U32_MAX ==> InSequence(runs, |text|)
  {
    var flags := CharFlags(text, marks);
    out, runs, segs := [], [], [];
    var idx := 0;
    while idx < |text|
      invariant idx <= |text|
      invariant Runs(segs, |text|, marks, idx)
      invariant Redlined(out, runs, text, segs, style)
    {
      var end := RunEnd(flags, idx, text, marks);
      var s := Segment(idx, end, FlagKind(flags[idx]));
      RunsSnoc(segs, |text|, marks, s);
      RedlinedSnoc(out, runs, text, segs, s, style);
      if s.kind.Plain? {
        out := out + text[idx..end];
        assert runs == runs + RecordOf(text, s);
      } else {
        out, runs := EmitChange(out, runs, text, s, style);
      }
      segs := segs + [s];
      idx := end;
    }
    if |text| <= U32_MAX { ReportIsOrdered(text, marks, style, out, runs, segs); }
    if ValidStyle(style) { RedlineKeepsVerdict(text, marks, style, out, runs, segs); }
  }

  // ------------------------------------------------------------------ injection is neutral

  lemma WrapDepth(d: int, open: string, span: string, close: string, o: char, c: char)
    requires d >= -1
    ensures Depth(d, open + span + close, o, c) == Depth(Depth(Depth(d, open, o, c), span, o, c), close, o, c)
  {
    DepthConcat(d, open, span, |span|, o, c);
    DepthConcat(d, open + span, close, |close|, o, c);
  }

  lemma WrapCount(open: string, span: string, close: string, c: char)
    ensures Count(open + span + close, c) == Count(open, c) + Count(span, c) + Count(close, c)
  {
    CountConcat(open, span, |span|, c);
    CountConcat(open + span, close, |close|, c);
  }

  /** Markers that are neutral for a bracket type leave any span's effect as it was. */
  lemma NeutralWrap(d: int, open: string, span: string, close: string, o: char, c: char)
    requires d >= -1 && Depth(0, open, o, c) == 0 && Depth(0, close, o, c) == 0
    ensures Depth(d, open + span + close, o, c) == Depth(d, span, o, c)
  {
    WrapDepth(d, open, span, close, o, c);
    NeutralDepth(d, open, o, c);
    NeutralDepth(Depth(d, span, o, c), close, o, c);
  }

  /** An inline pair opens and closes one block around a span whose squares balance. */
  lemma BlockWrap(d: int, open: string, span: string, close: string)
    requires d >= -1 && WrapsOneBlock(open, close) && Depth(0, span, '[', ']') == 0
    ensures Depth(d, open + span + close, '[', ']') == Depth(d, span, '[', ']')
  {
    WrapDepth(d, open, span, close, '[', ']');
    NeutralDepth(d, span, '[', ']');
    if d < 0 {
      DepthBelow(open, |open|, '[', ']');
      DepthBelow(close, |close|, '[', ']');
    } else {
      DepthShift(0, d, open, |open|, '[', ']');
      NeutralDepth(d + 1, span, '[', ']');
      DepthShift(1, d + 1, close, |close|, '[', ']');
    }
  }

  /** `piece` moves this bracket depth from anywhere exactly as `span` does. */
  ghost predicate SameDepths(piece: string, span: string, o: char, c: char) {
    forall d :: d >= -1 ==> Depth(d, piece, o, c) == Depth(d, span, o, c)
  }

  ghost predicate SameParity(piece: string, span: string, c: char) {
    Count(piece, c) % 2 == Count(span, c) % 2
  }

  /** `piece` is indistinguishable from `span` to the classifier, in any context. */
  ghost predicate Transparent(piece: string, span: string) {
    && SameDepths(piece, span, '[', ']') && SameDepths(piece, span, '{', '}') && SameDepths(piece, span, '(', ')')
    && SameParity(piece, span, '$') && SameParity(piece, span, '`')
  }

  lemma CleanWrap(open: string, span: string, close: string)
    requires CleanButSquares(open) && CleanButSquares(close)
    ensures var piece := open + span + close;
            SameDepths(piece, span, '{', '}') && SameDepths(piece, span, '(', ')')
            && SameParity(piece, span, '$') && SameParity(piece, span, '`')
  {
    forall d | d >= -1 ensures Depth(d, open + span + close, '{', '}') == Depth(d, span, '{', '}')
                       ensures Depth(d, open + span + close, '(', ')') == Depth(d, span, '(', ')') {
      NeutralWrap(d, open, span, close, '{', '}');
      NeutralWrap(d, open, span, close, '(', ')');
    }
    WrapCount(open, span, close, '$');
    WrapCount(open, span, close, '`');
  }

  lemma InlineTransparent(open: string, span: string, close: string)
    requires CleanButSquares(open) && CleanButSquares(close) && WrapsOneBlock(open, close)
    requires Depth(0, span, '[', ']') == 0
    ensures Transparent(open + span + close, span)
  {
    CleanWrap(open, span, close);
    forall d | d >= -1 ensures Depth(d, open + span + close, '[', ']') == Depth(d, span, '[', ']') {
      BlockWrap(d, open, span, close);
    }
  }

  lemma BlockTransparent(open: string, span: string, close: string)
    requires Classify(open).InlineSafe? && Classify(close).InlineSafe?
    ensures Transparent(open + span + close, span)
  {
    CleanWrap(open, span, close);
    forall d | d >= -1 ensures Depth(d, open + span + close, '[', ']') == Depth(d, span, '[', ']') {
      NeutralWrap(d, open, span, close, '[', ']');
    }
  }

  /** Under a valid style every emitted run is transparent, inline or replaced. */
  lemma EmitTransparent(span: string, kind: RunKind, style: Style)
    requires ValidStyle(style)
    ensures Transparent(Emit(span, kind, style), span)
  {
    if !kind.Plain? {
      if !Classify(span).InlineSafe? {
        BlockTransparent(style.replacedOpen, span, style.replacedClose);
      } else if kind.Inserted? {
        InlineTransparent(style.insertOpen, span, style.insertClose);
      } else {
        InlineTransparent(style.deleteOpen, span, style.deleteClose);
      }
    }
  }

  lemma {:induction false} ConcatDepths(pieces: seq<string>, spans: seq<string>, k: nat, o: char, c: char)
    requires k <= |pieces| == |spans| && forall i :: 0 <= i < |pieces| ==> SameDepths(pieces[i], spans[i], o, c)
    ensures Depth(0, ConcatTo(pieces, k), o, c) == Depth(0, ConcatTo(spans, k), o, c)
  {
    if k > 0 {
      ConcatDepths(pieces, spans, k - 1, o, c);
      DepthConcat(0, ConcatTo(pieces, k - 1), pieces[k - 1], |pieces[k - 1]|, o, c);
      DepthConcat(0, ConcatTo(spans, k - 1), spans[k - 1], |spans[k - 1]|, o, c);
      var d := Depth(0, ConcatTo(pieces, k - 1), o, c);
      assert SameDepths(pieces[k - 1], spans[k - 1], o, c);
      assert Depth(d, pieces[k - 1], o, c) == Depth(d, spans[k - 1], o, c);
    }
  }

  lemma {:induction false} ConcatParity(pieces: seq<string>, spans: seq<string>, k: nat, c: char)
    requires k <= |pieces| == |spans| && forall i :: 0 <= i < |pieces| ==> SameParity(pieces[i], spans[i], c)
    ensures Count(ConcatTo(pieces, k), c) % 2 == Count(ConcatTo(spans, k), c) % 2
  {
    if k > 0 {
      ConcatParity(pieces, spans, k - 1, c);
      CountConcat(ConcatTo(pieces, k - 1), pieces[k - 1], |pieces[k - 1]|, c);
      CountConcat(ConcatTo(spans, k - 1), spans[k - 1], |spans[k - 1]|, c);
      assert SameParity(pieces[k - 1], spans[k - 1], c);
    }
  }

  /** Replacing spans by transparent pieces never changes the verdict. */
  lemma TransparentConcat(pieces: seq<string>, spans: seq<string>)
    requires |pieces| == |spans| && forall i :: 0 <= i < |pieces| ==> Transparent(pieces[i], spans[i])
    ensures Classify(Concat(pieces)) == Classify(Concat(spans))
  {
    ConcatDepths(pieces, spans, |pieces|, '[', ']');
    ConcatDepths(pieces, spans, |pieces|, '{', '}');
    ConcatDepths(pieces, spans, |pieces|, '(', ')');
    ConcatParity(pieces, spans, |pieces|, '$');
    ConcatParity(pieces, spans, |pieces|, '`');
  }

  // ------------------------------------------------------------------ nothing is lost

  lemma {:induction false} SpansJoin(text: string, marks: MarkSet, segs: seq<Segment>, k: nat)
    requires Runs(segs, |text|, marks, |text|) && k <= |segs|
    requires forall i :: 0 <= i < |segs| ==> segs[i].start <= segs[i].end <= |text|
    ensures StartOf(segs, k) <= |text| && ConcatTo(Spans(text, segs), k) == text[..StartOf(segs, k)]
  {
    if k > 0 {
      SpansJoin(text, marks, segs, k - 1);
      assert IsRun(segs, k - 1, |text|, marks);
      var s := segs[k - 1];
      assert text[..s.end] == text[..s.start] + text[s.start..s.end];
    }
  }

  /** The runs spell the source: every character once, in order. */
  lemma RunsSpellText(text: string, marks: MarkSet, segs: seq<Segment>)
    requires Runs(segs, |text|, marks, |text|)
    requires forall i :: 0 <= i < |segs| ==> segs[i].start <= segs[i].end <= |text|
    ensures Concat(Spans(text, segs)) == text
  {
    SpansJoin(text, marks, segs, |segs|);
    assert text[..|text|] == text;
  }

  /**
    For every style that validates and every text and mark set, the redline has the same
    classification as the source, reason included: injection never unbalances balanced
    source and never hides an imbalance.
   */
  lemma RedlineKeepsVerdict(text: string, marks: MarkSet, style: Style, out: string, runs: seq<RunRecord>,
                            segs: seq<Segment>)
    requires ValidStyle(style)
    requires Runs(segs, |text|, marks, |text|) && Redlined(out, runs, text, segs, style)
    ensures Classify(out) == Classify(text)
  {
    RunsSpellText(text, marks, segs);
    var pieces, spans := Pieces(text, segs, style), Spans(text, segs);
    forall i | 0 <= i < |pieces| ensures Transparent(pieces[i], spans[i]) {
      EmitTransparent(spans[i], segs[i].kind, style);
    }
    TransparentConcat(pieces, spans);
  }

  // ------------------------------------------------------------------ reading the views off the runs

  /** The source text of the runs that are not of kind `dropped`. */
  function DropTo(text: string, segs: seq<Segment>, k: nat, dropped: RunKind): string
    requires k <= |segs| && forall i :: 0 <= i < |segs| ==> segs[i].start <= segs[i].end <= |text|
  {
    if k == 0 then []
    else DropTo(text, segs, k - 1, dropped) +
         if segs[k - 1].kind == dropped then [] else text[segs[k - 1].start..segs[k - 1].end]
  }

  function OfRunKind(n: nat, marks: MarkSet, kind: RunKind): (r: seq<bool>)
    ensures |r| == n
  {
    seq(n, c requires 0 <= c < n => KindAt(marks, c) == kind)
  }

  lemma {:induction false} KeptUniform(text: string, gone: seq<bool>, s: nat, e: nat)
    requires |gone| == |text| && s <= e <= |text|
    requires forall c :: s <= c < e ==> gone[c] == gone[s]
    ensures KeptTo(text, gone, e) == KeptTo(text, gone, s) + if s < e && gone[s] then [] else text[s..e]
    decreases e
  {
    if s < e {
      KeptUniform(text, gone, s, e - 1);
      assert text[s..e] == text[s..e - 1] + [text[e - 1]];
    }
  }

  /** Segment `k` goes on where the one before ended, and is dropped or kept whole. */
  ghost predicate WholeRun(text: string, segs: seq<Segment>, gone: seq<bool>, k: nat, dropped: RunKind)
    requires k < |segs| && |gone| == |text|
  {
    var s := segs[k];
    && s.start == StartOf(segs, k) <= s.end <= |text|
    && KeptTo(text, gone, s.end) == KeptTo(text, gone, s.start) + if s.kind == dropped then [] else text[s.start..s.end]
  }

  lemma {:induction false} DropWhole(text: string, segs: seq<Segment>, gone: seq<bool>, k: nat, dropped: RunKind)
    requires |gone| == |text| && k <= |segs|
    requires forall i :: 0 <= i < |segs| ==> segs[i].start <= segs[i].end <= |text|
    requires forall i: nat {:trigger WholeRun(text, segs, gone, i, dropped)} :: i < |segs| ==>
               WholeRun(text, segs, gone, i, dropped)
    ensures StartOf(segs, k) <= |text| && DropTo(text, segs, k, dropped) == KeptTo(text, gone, StartOf(segs, k))
  {
    if k > 0 {
      DropWhole(text, segs, gone, k - 1, dropped);
      assert WholeRun(text, segs, gone, k - 1, dropped);
    }
  }

  lemma DropKeeps(text: string, marks: MarkSet, segs: seq<Segment>, k: nat, dropped: RunKind)
    requires Runs(segs, |text|, marks, |text|) && k <= |segs|
    requires forall i :: 0 <= i < |segs| ==> segs[i].start <= segs[i].end <= |text|
    ensures StartOf(segs, k) <= |text|
    ensures DropTo(text, segs, k, dropped) == KeptTo(text, OfRunKind(|text|, marks, dropped), StartOf(segs, k))
  {
    var gone := OfRunKind(|text|, marks, dropped);
    forall i: nat | i < |segs| ensures WholeRun(text, segs, gone, i, dropped) {
      assert IsRun(segs, i, |text|, marks);
      KeptRun(text, marks, segs, i, dropped);
    }
    DropWhole(text, segs, gone, k, dropped);
  }

  lemma KeptRun(text: string, marks: MarkSet, segs: seq<Segment>, k: nat, dropped: RunKind)
    requires k < |segs| && IsRun(segs, k, |text|, marks)
    ensures var s, gone := segs[k], OfRunKind(|text|, marks, dropped);
            KeptTo(text, gone, s.end)
            == KeptTo(text, gone, s.start) + if s.kind == dropped then [] else text[s.start..s.end]
  {
    var s, gone := segs[k], OfRunKind(|text|, marks, dropped);
    assert gone[s.start] == (s.kind == dropped);
    KeptUniform(text, gone, s.start, s.end);
  }

  /** Dropping the deleted runs always gives the proposed text. */
  lemma DroppingDeletedGivesProposed(text: string, marks: MarkSet, segs: seq<Segment>)
    requires Runs(segs, |text|, marks, |text|)
    requires forall i :: 0 <= i < |segs| ==> segs[i].start <= segs[i].end <= |text|
    ensures DropTo(text, segs, |segs|, Deleted) == Project(text, marks, Proposed)
  {
    DropKeeps(text, marks, segs, |segs|, Deleted);
    assert OfRunKind(|text|, marks, Deleted) == Hidden(|text|, marks, Proposed);
  }

  lemma {:induction false} BelowSubset(less: seq<bool>, more: seq<bool>, p: nat)
    requires |less| == |more| && forall c :: 0 <= c < |less| && less[c] ==> more[c]
    ensures Below(less, p) <= Below(more, p)
    ensures forall c :: 0 <= c < |less| && c < p && more[c] && !less[c] ==> Below(less, p) < Below(more, p)
  {
    if p > 0 { BelowSubset(less, more, p - 1); }
  }

  /** Dropping the inserted runs gives the baseline exactly when no character is both. */
  lemma DroppingInsertedGivesBaseline(text: string, marks: MarkSet, segs: seq<Segment>)
    requires Runs(segs, |text|, marks, |text|)
    requires forall i :: 0 <= i < |segs| ==> segs[i].start <= segs[i].end <= |text|
    ensures DropTo(text, segs, |segs|, Inserted) == Project(text, marks, Baseline) <==>
            forall c :: 0 <= c < |text| ==> !(Covered(marks, Insert, c) && Covered(marks, Delete, c))
  {
    DropKeeps(text, marks, segs, |segs|, Inserted);
    var drops, hidden := OfRunKind(|text|, marks, Inserted), Hidden(|text|, marks, Baseline);
    BelowSubset(drops, hidden, |text|);
    if forall c :: 0 <= c < |text| ==> !(Covered(marks, Insert, c) && Covered(marks, Delete, c)) {
      assert drops == hidden;
    } else {
      var c :| 0 <= c < |text| && Covered(marks, Insert, c) && Covered(marks, Delete, c);
      assert hidden[c] && !drops[c];
    }
  }

  /** One character, both inserted and deleted. */
  function BothMarked(): MarkSet {
    map[
      1 := Mark(1, TextRange(0, 1), Insert, "a", 1, None),
      2 := Mark(2, TextRange(0, 1), Delete, "a", 2, None)]
  }

  lemma BothAreCovered()
    ensures Covered(BothMarked(), Insert, 0) && Covered(BothMarked(), Delete, 0)
  {
    assert 1 in BothMarked() && BothMarked()[1].range.Covers(0);
    assert 2 in BothMarked() && BothMarked()[2].range.Covers(0);
  }

  /** Such a character is a deleted run, so dropping inserted runs keeps what the baseline hides. */
  lemma DroppingInsertedCanDiffer()
    ensures var segs := [Segment(0, 1, Deleted)];
            Runs(segs, 1, BothMarked(), 1)
            && DropTo("x", segs, 1, Inserted) != Project("x", BothMarked(), Baseline)
  {
    BothAreCovered();
    DroppingInsertedGivesBaseline("x", BothMarked(), [Segment(0, 1, Deleted)]);
  }

  // ------------------------------------------------------------------ the report

  /** Character `c` lies in a recorded run of kind `kind`. */
  predicate Recorded(runs: seq<RunRecord>, kind: MarkKind, c: int) {
    exists i :: 0 <= i < |runs| && runs[i].kind == kind && runs[i].range.Covers(c)
  }

  lemma RecordedConcat(xs: seq<RunRecord>, ys: seq<RunRecord>, kind: MarkKind, c: int)
    ensures Recorded(xs + ys, kind, c) <==> Recorded(xs, kind, c) || Recorded(ys, kind, c)
  {
    if i :| 0 <= i < |xs| && xs[i].kind == kind && xs[i].range.Covers(c) {
      assert (xs + ys)[i] == xs[i];
    }
    if i :| 0 <= i < |ys| && ys[i].kind == kind && ys[i].range.Covers(c) {
      assert (xs + ys)[|xs| + i] == ys[i];
    }
  }

  lemma RecordedOne(text: string, s: Segment, kind: MarkKind, c: nat)
    requires s.start <= s.end <= |text| <= U32_MAX && kind.IsChange()
    ensures Recorded(RecordOf(text, s), kind, c) <==>
            s.start <= c < s.end && s.kind == if kind.Insert? then Inserted else Deleted
  {
    if !s.kind.Plain? {
      var r := RecordOf(text, s)[0];
      assert r.range == TextRange(s.start, s.end);
    }
  }

  lemma {:induction false} RecordedTo(text: string, marks: MarkSet, segs: seq<Segment>, k: nat, kind: MarkKind, c: nat)
    requires |text| <= U32_MAX && Runs(segs, |text|, marks, |text|) && k <= |segs| && kind.IsChange()
    requires forall i :: 0 <= i < |segs| ==> segs[i].start <= segs[i].end <= |text|
    ensures Recorded(RecordsTo(text, segs, k), kind, c) <==>
            c < StartOf(segs, k) && KindAt(marks, c) == if kind.Insert? then Inserted else Deleted
  {
    if k > 0 {
      RecordedTo(text, marks, segs, k - 1, kind, c);
      assert IsRun(segs, k - 1, |text|, marks);
      var s := segs[k - 1];
      RecordedConcat(RecordsTo(text, segs, k - 1), RecordOf(text, s), kind, c);
      assert SaturatingU32(s.start) == s.start && SaturatingU32(s.end) == s.end;
      RecordedOne(text, s, kind, c);
    }
  }

  /** The report covers exactly the changed characters, each under its own kind. */
  lemma ReportCoversChanges(text: string, marks: MarkSet, style: Style, out: string, runs: seq<RunRecord>,
                            segs: seq<Segment>, c: nat)
    requires |text| <= U32_MAX && c < |text|
    requires Runs(segs, |text|, marks, |text|) && Redlined(out, runs, text, segs, style)
    ensures Recorded(runs, Delete, c) <==> Covered(marks, Delete, c)
    ensures Recorded(runs, Insert, c) <==> Covered(marks, Insert, c) && !Covered(marks, Delete, c)
  {
    RecordedTo(text, marks, segs, |segs|, Delete, c);
    RecordedTo(text, marks, segs, |segs|, Insert, c);
  }

  /** Non-empty ranges in order, none overlapping another, the last ending by `bound`. */
  predicate InSequence(runs: seq<RunRecord>, bound: nat) {
    && (forall i :: 0 <= i < |runs| ==> !runs[i].range.IsEmpty() && runs[i].range.end <= bound)
    && (forall i, j :: 0 <= i < j < |runs| ==> runs[i].range.end <= runs[j].range.start)
  }

  lemma {:induction false} RecordsOrderedTo(text: string, marks: MarkSet, segs: seq<Segment>, k: nat)
    requires |text| <= U32_MAX && Runs(segs, |text|, marks, |text|) && k <= |segs|
    requires forall i :: 0 <= i < |segs| ==> segs[i].start <= segs[i].end <= |text|
    ensures InSequence(RecordsTo(text, segs, k), StartOf(segs, k))
  {
    if k > 0 {
      RecordsOrderedTo(text, marks, segs, k - 1);
      assert IsRun(segs, k - 1, |text|, marks);
      OneMoreRecord(RecordsTo(text, segs, k - 1), text, segs[k - 1]);
    }
  }

  lemma OneMoreRecord(before: seq<RunRecord>, text: string, s: Segment)
    requires s.start < s.end <= |text| <= U32_MAX && InSequence(before, s.start)
    ensures InSequence(before + RecordOf(text, s), s.end)
  {
    assert SaturatingU32(s.start) == s.start && SaturatingU32(s.end) == s.end;
  }

  /** Recorded runs are non-empty, in order, and never overlap. */
  lemma ReportIsOrdered(text: string, marks: MarkSet, style: Style, out: string, runs: seq<RunRecord>,
                        segs: seq<Segment>)
    requires |text| <= U32_MAX
    requires Runs(segs, |text|, marks, |text|) && Redlined(out, runs, text, segs, style)
    ensures InSequence(runs, |text|)
  {
    RecordsOrderedTo(text, marks, segs, |segs|);
  }

  // ------------------------------------------------------------------ the default style

  function DefaultStyle(): Style {
    Style("#review.add" + "[", "]", "#review.del" + "[", "]", "#review.rep-open" + "[]", "#review.rep-close" + "[]")
  }

  predicate IsDelimiter(c: char) {
    c == '[' || c == ']' || c == '{' || c == '}' || c == '(' || c == ')' || c == '$' || c == '`'
  }

  predicate NoDelimiter(s: string) {
    forall i :: 0 <= i < |s| ==> !IsDelimiter(s[i])
  }

  lemma {:induction false} NoDelimiterDepth(d: int, s: string, t: string, o: char, c: char)
    requires d >= -1 && NoDelimiter(s) && IsDelimiter(o) && IsDelimiter(c)
    ensures Depth(d, s + t, o, c) == Depth(d, t, o, c)
  {
    NoDelimiterDepthTo(d, s, |s|, o, c);
    DepthConcat(d, s, t, |t|, o, c);
  }

  lemma {:induction false} NoDelimiterDepthTo(d: int, s: string, k: nat, o: char, c: char)
    requires d >= -1 && k <= |s| && NoDelimiter(s) && IsDelimiter(o) && IsDelimiter(c)
    ensures DepthTo(d, s, k, o, c) == d
  {
    if k > 0 { NoDelimiterDepthTo(d, s, k - 1, o, c); }
  }

  lemma {:induction false} NoDelimiterCount(s: string, t: string, c: char)
    requires NoDelimiter(s) && IsDelimiter(c)
    ensures Count(s + t, c) == Count(t, c)
  {
    NoDelimiterCountTo(s, |s|, c);
    CountConcat(s, t, |t|, c);
  }

  lemma {:induction false} NoDelimiterCountTo(s: string, k: nat, c: char)
    requires k <= |s| && NoDelimiter(s) && IsDelimiter(c)
    ensures CountTo(s, k, c) == 0
  {
    if k > 0 { NoDelimiterCountTo(s, k - 1, c); }
  }

  lemma NamedMarker(name: string, t: string)
    requires NoDelimiter(name)
    ensures Depth(0, name + t, '[', ']') == Depth(0, t, '[', ']')
    ensures CleanButSquares(name + t) <==> CleanButSquares(t)
    ensures Classify(name + t) == Classify(t)
  {
    NoDelimiterDepth(0, name, t, '[', ']');
    NoDelimiterDepth(0, name, t, '{', '}');
    NoDelimiterDepth(0, name, t, '(', ')');
    NoDelimiterCount(name, t, '$');
    NoDelimiterCount(name, t, '`');
  }

  lemma BareMarkers()
    ensures Depth(0, "[", '[', ']') == 1 && CleanButSquares("[")
    ensures Depth(1, "]", '[', ']') == 0 && CleanButSquares("]")
    ensures Classify("[]").InlineSafe?
  {
  }

  /** A named function call that takes one content block is a valid pair. */
  lemma NamedPair(name: string)
    requires NoDelimiter(name)
    ensures WrapsOneBlock(name + "[", "]") && CleanButSquares(name + "[") && CleanButSquares("]")
  {
    BareMarkers();
    NamedMarker(name, "[");
  }

  lemma NamedBlock(name: string)
    requires NoDelimiter(name)
    ensures Classify(name + "[]").InlineSafe?
  {
    BareMarkers();
    NamedMarker(name, "[]");
  }

  /** A style of named markers passes validation. */
  lemma NamedStyle(insert: string, delete: string, open: string, close: string)
    requires NoDelimiter(insert) && NoDelimiter(delete) && NoDelimiter(open) && NoDelimiter(close)
    ensures ValidStyle(Style(insert + "[", "]", delete + "[", "]", open + "[]", close + "[]"))
  {
    NamedPair(insert);
    NamedPair(delete);
    NamedBlock(open);
    NamedBlock(close);
  }

  /** The style every caller gets by default passes its own validation. */
  lemma DefaultStyleIsValid()
    ensures ValidStyle(DefaultStyle())
  {
    NamedStyle("#review.add", "#review.del", "#review.rep-open", "#review.rep-close");
  }
}
