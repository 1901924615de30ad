/**
  The stateful document (crates/nisaba-core/src/document.rs), text and marks layers.

  Each method updates the two fields in place; `Now` is the value the theorems about runs
  are stated over, so `ResolveMark` moves `Now` by exactly one `Apply` step of a run.
 */
module Documents {
  import opened Wrappers
  import opened Marks
  import opened Resolution
  import opened ResolutionRuns
  import opened Projection
  import opened Validation

  class Document {
    var text: string
    var marks: MarkSet

    ghost function Now(): State
      reads this
    {
      State(text, marks)
    }

    constructor (text: string, marks: MarkSet)
      ensures Now() == State(text, marks)
    {
      this.text := text;
      this.marks := marks;
    }

    /** Replacing the text clears the marks, so the document is valid whatever it was. */
    method SetText(newText: string)
      modifies this
      ensures Now() == State(newText, map[])
      ensures Valid(text, marks)
    {
      text := newText;
      marks := map[];
    }

    method AddMark(mark: Mark)
      modifies this
      ensures Now() == old(Now()).(marks := old(marks)[mark.id := mark])
    {
      marks := marks[mark.id := mark];
    }

    method RemoveMark(id: nat) returns (removed: Option<Mark>)
      modifies this
      ensures Now() == old(Now()).(marks := old(marks) - {id})
      ensures removed == if id in old(marks) then Some(old(marks)[id]) else None
    {
      if id in marks {
        removed := Some(marks[id]);
        marks := marks - {id};
      } else {
        removed := None;
      }
    }

    /** Accept or reject one change; a refused call changes nothing. */
    method ResolveMark(id: nat, verdict: Verdict) returns (report: Result<Outcome, ResolutionError>)
      modifies this
      ensures Now() == Apply(old(Now()), Op(id, verdict))
      ensures report == Resolved(old(text), old(marks), id, verdict)
    {
      report := Resolve(text, marks, id, verdict);
      if report.Ok? {
        text := report.value.text;
        marks := report.value.marks;
      }
    }

    method View(view: View) returns (out: string)
      ensures out == Project(text, marks, view)
    {
      out := ProjectText(text, marks, view);
    }

    method IsValid() returns (r: bool)
      ensures r <==> Valid(text, marks)
    {
      var issues := Validate(text, marks);
      r := issues == [];
    }
  }
}
