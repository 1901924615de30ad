/**
  Accepting and rejecting one tracked change (crates/nisaba-core/src/resolution.rs).

  The functions say what a resolution does to a text and its marks; the methods are the
  loops of the source, proved to compute them. What whole runs of resolutions do is in
  ResolutionRuns.dfy.
 */
module Resolution {
  import opened Arithmetic
  import opened Wrappers
  import opened Marks
  import opened Survivors

  datatype Verdict = Accept | Reject

  datatype ResolutionError = MarkNotFound(id: nat) | NotAChange(id: nat, kind: MarkKind)

  datatype Outcome = Outcome(
    text: string,
    marks: MarkSet,
    textChanged: bool,
    removedRange: Option<TextRange>,
    remapped: nat,
    emptied: seq<nat>)

  function SaturatingSub(a: Position, b: Position): Position {
    if a >= b then a - b else 0
  }

  function RemapPosition(pos: Position, delStart: Position, delEnd: Position): Position {
    if pos <= delStart then pos
    else if pos >= delEnd then SaturatingSub(pos, SaturatingSub(delEnd, delStart))
    else delStart
  }

  function RemapRange(range: TextRange, delStart: Position, delEnd: Position): TextRange {
    TextRange(RemapPosition(range.start, delStart, delEnd), RemapPosition(range.end, delStart, delEnd))
  }

  /** Rejecting an insertion discards its characters, accepting a deletion applies it. */
  predicate RemovesText(kind: MarkKind, verdict: Verdict) {
    (kind.Insert? && verdict.Reject?) || (kind.Delete? && verdict.Accept?)
  }

  function RemapMark(m: Mark, delStart: Position, delEnd: Position): Mark {
    m.(range := RemapRange(m.range, delStart, delEnd))
  }

  /** Every mark but `id`, moved to where its characters are after `[delStart, delEnd)` went. */
  function RemapOthers(marks: MarkSet, id: nat, delStart: Position, delEnd: Position): (r: MarkSet)
    ensures r.Keys == marks.Keys - {id}
  {
    map k | k in marks && k != id :: RemapMark(marks[k], delStart, delEnd)
  }

  predicate Moves(m: Mark, delStart: Position, delEnd: Position) {
    RemapRange(m.range, delStart, delEnd) != m.range
  }

  predicate Empties(m: Mark, delStart: Position, delEnd: Position) {
    !m.range.IsEmpty() && RemapRange(m.range, delStart, delEnd).IsEmpty()
  }

  /** How many of the first `k` marks, `id` aside, change their range. */
  function MovedCount(ms: seq<Mark>, id: nat, delStart: Position, delEnd: Position, k: nat): nat
    requires k <= |ms|
  {
    if k == 0 then 0
    else MovedCount(ms, id, delStart, delEnd, k - 1)
         + if ms[k - 1].id != id && Moves(ms[k - 1], delStart, delEnd) then 1 else 0
  }

  /** Which of the first `k` marks, `id` aside, lose their last character. */
  function EmptiedIds(ms: seq<Mark>, id: nat, delStart: Position, delEnd: Position, k: nat): seq<nat>
    requires k <= |ms|
  {
    if k == 0 then []
    else EmptiedIds(ms, id, delStart, delEnd, k - 1)
         + if ms[k - 1].id != id && Empties(ms[k - 1], delStart, delEnd) then [ms[k - 1].id] else []
  }

  function DropMark(text: string, marks: MarkSet, id: nat): Outcome {
    Outcome(text, marks - {id}, false, None, 0, [])
  }

  function Removal(text: string, marks: MarkSet, id: nat, delStart: Position, delEnd: Position): Outcome
    requires delStart <= delEnd <= |text|
  {
    var ms := InOrder(marks);
    Outcome(
      Cut(text, delStart, delEnd),
      RemapOthers(marks, id, delStart, delEnd),
      true,
      Some(TextRange(delStart, delEnd)),
      MovedCount(ms, id, delStart, delEnd, |ms|),
      EmptiedIds(ms, id, delStart, delEnd, |ms|))
  }

  function Resolved(text: string, marks: MarkSet, id: nat, verdict: Verdict): Result<Outcome, ResolutionError> {
    if id !in marks then Err(MarkNotFound(id))
    else if !marks[id].kind.IsChange() then Err(NotAChange(id, marks[id].kind))
    else
      var delStart := Min(marks[id].range.start, |text|);
      var delEnd := Min(marks[id].range.end, |text|);
      if RemovesText(marks[id].kind, verdict) && delStart < delEnd
      then Ok(Removal(text, marks, id, delStart, delEnd))
      else Ok(DropMark(text, marks, id))
  }

  method RemoveCharRange(text: string, start: nat, end: nat) returns (out: string)
    ensures out == if start >= end || start >= |text| then text else Cut(text, start, Min(end, |text|))
  {
    if start >= end || start >= |text| {
      return text;
    }
    var stop := Min(end, |text|);
    out := [];
    for i := 0 to |text|
      invariant out == if i <= start then text[..i]
                       else if i <= stop then text[..start]
                       else text[..start] + text[stop..i]
    {
      if !(start <= i < stop) {
        out := out + [text[i]];
      }
    }
  }

  method Resolve(text: string, marks: MarkSet, id: nat, verdict: Verdict)
    returns (r: Result<Outcome, ResolutionError>)
    ensures r == Resolved(text, marks, id, verdict)
  {
    if id !in marks {
      return Err(MarkNotFound(id));
    }
    var mark := marks[id];
    if !mark.kind.IsChange() {
      return Err(NotAChange(id, mark.kind));
    }
    if !RemovesText(mark.kind, verdict) {
      return Ok(DropMark(text, marks, id));
    }
    var delStart := Min(mark.range.start, |text|);
    var delEnd := Min(mark.range.end, |text|);
    if delStart >= delEnd {
      return Ok(DropMark(text, marks, id));
    }
    var newText := RemoveCharRange(text, delStart, delEnd);
    var s, e := SaturatingU32(delStart), SaturatingU32(delEnd);
    var newMarks, remapped, emptied := RemapLoop(marks, id, s, e);
    r := Ok(Outcome(newText, newMarks, true, Some(TextRange(s, e)), remapped, emptied));
  }

  /** What the remapping loop has collected after the first `k` marks. */
  ghost function Collected(ms: seq<Mark>, id: nat, s: Position, e: Position, k: nat): map<nat, Mark>
    requires k <= |ms|
  {
    if k == 0 then map[]
    else
      var before := Collected(ms, id, s, e, k - 1);
      if ms[k - 1].id == id then before else before[ms[k - 1].id := RemapMark(ms[k - 1], s, e)]
  }

  lemma {:induction false} CollectedOne(marks: MarkSet, id: nat, s: Position, e: Position, k: nat, x: nat)
    requires k <= |InOrder(marks)|
    ensures var got := Collected(InOrder(marks), id, s, e, k);
            x in got ==> x != id && x in marks && got[x] == RemapMark(marks[x], s, e)
  {
    if k > 0 {
      CollectedOne(marks, id, s, e, k - 1, x);
      InOrderAt(marks, k - 1);
    }
  }

  lemma {:induction false} CollectedHas(ms: seq<Mark>, id: nat, s: Position, e: Position, k: nat, i: nat)
    requires i < k <= |ms| && ms[i].id != id
    ensures ms[i].id in Collected(ms, id, s, e, k)
  {
    if i < k - 1 { CollectedHas(ms, id, s, e, k - 1, i); }
  }

  lemma CollectedAll(marks: MarkSet, ms: seq<Mark>, id: nat, s: Position, e: Position)
    requires ms == InOrder(marks)
    ensures Collected(ms, id, s, e, |ms|) == RemapOthers(marks, id, s, e)
  {
    var all := Collected(ms, id, s, e, |ms|);
    forall x: nat ensures x in all ==> x != id && x in marks && all[x] == RemapMark(marks[x], s, e) {
      CollectedOne(marks, id, s, e, |ms|, x);
    }
    forall x | x in marks && x != id ensures x in all {
      var i := InOrderHas(marks, x);
      CollectedHas(ms, id, s, e, |ms|, i);
    }
  }

  /** The remapping loop at the end of `resolve`. */
  method RemapLoop(marks: MarkSet, id: nat, s: Position, e: Position)
    returns (newMarks: MarkSet, remapped: nat, emptied: seq<nat>)
    ensures newMarks == RemapOthers(marks, id, s, e)
    ensures var ms := InOrder(marks);
            remapped == MovedCount(ms, id, s, e, |ms|) && emptied == EmptiedIds(ms, id, s, e, |ms|)
  {
    var ms := InOrder(marks);
    var collected: map<nat, Mark> := map[];
    remapped, emptied := 0, [];
    for i := 0 to |ms|
      invariant collected == Collected(ms, id, s, e, i)
      invariant remapped == MovedCount(ms, id, s, e, i)
      invariant emptied == EmptiedIds(ms, id, s, e, i)
    {
      var m := ms[i];
      if m.id != id {
        var moved := RemapMark(m, s, e);
        if moved.range != m.range {
          remapped := remapped + 1;
        }
        if !m.range.IsEmpty() && moved.range.IsEmpty() {
          emptied := emptied + [moved.id];
        }
        collected := collected[moved.id := moved];
      }
    }
    CollectedAll(marks, ms, id, s, e);
    newMarks := collected;
  }
}
