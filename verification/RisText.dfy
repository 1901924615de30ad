/**
  The RIS interchange text (crates/nisaba-references/src/lib.rs): a record is a list of
  tagged values, one to a line, from a `TY` line to an `ER` line.
 */
module RisText {
  import opened Wrappers
  import opened Unicode

  datatype Tag = Tag(tag: string, value: string)

  type Record = seq<Tag>

  datatype RisError = Malformed(line: nat) | MissingTerminator | MissingType

  // ------------------------------------------------------------------ strings

  function TrimStart(s: string): string {
    if s != [] && IsWhitespace(s[0]) then TrimStart(s[1..]) else s
  }

  function TrimEnd(s: string): string {
    if s != [] && IsWhitespace(s[|s| - 1]) then TrimEnd(s[..|s| - 1]) else s
  }

  function Trim(s: string): string { TrimEnd(TrimStart(s)) }

  predicate IsAlnum(c: char) { '0' <= c <= '9' || 'A' <= c <= 'Z' || 'a' <= c <= 'z' }

  function UpperChar(c: char): char { if 'a' <= c <= 'z' then (c as int - 32) as char else c }

  function Upper(s: string): (r: string)
    ensures |r| == |s|
  {
    seq(|s|, i requires 0 <= i < |s| => UpperChar(s[i]))
  }

  /** The position of the first character of a kind, or the length if there is none. */
  function FirstSpace(s: string): (r: nat)
    ensures r <= |s|
  {
    if s == [] || IsWhitespace(s[0]) then 0 else 1 + FirstSpace(s[1..])
  }

  function FirstBreak(s: string): (r: nat)
    ensures r <= |s|
  {
    if s == [] || s[0] == '\n' then 0 else 1 + FirstBreak(s[1..])
  }

  function StripCr(s: string): string {
    if s != [] && s[|s| - 1] == '\r' then s[..|s| - 1] else s
  }

  /** The lines of a text; a line break that ends the text begins no further line. */
  function Lines(s: string): seq<string>
    decreases |s|
  {
    if s == [] then []
    else
      var i := FirstBreak(s);
      if i == |s| then [s] else [StripCr(s[..i])] + Lines(s[i + 1..])
  }

  // ------------------------------------------------------------------ parsing

  /** Complete records, the tags of the open one, and the number of lines read. */
  datatype State = State(records: seq<Record>, current: Record, line: nat)

  predicate GoodTag(tag: string) { tag != [] && forall c <- tag :: IsAlnum(c) }

  /** A line without a tag goes on with the value of the last tag. */
  function Continue(st: State, line: string): Result<State, RisError> {
    var trimmed := Trim(line);
    var text := if trimmed != [] && trimmed[0] == '-' then TrimStart(trimmed[1..]) else trimmed;
    if text == [] then Ok(st)
    else if st.current != [] && st.current[|st.current| - 1].tag != "ER" then
      var last := st.current[|st.current| - 1];
      Ok(st.(current := st.current[..|st.current| - 1] + [last.(value := last.value + " " + text)]))
    else Err(Malformed(st.line))
  }

  /** Takes in a tag, already in capitals. */
  function TakeTag(st: State, tag: string, value: string): Result<State, RisError> {
    var current := st.current + [Tag(tag, value)];
    if tag == "ER" then Ok(st.(records := st.records + [current], current := []))
    else if tag == "TY" || st.current != [] then Ok(st.(current := current))
    else Err(Malformed(st.line))
  }

  function TagLine(st: State, line: string): Result<State, RisError> {
    var i := FirstSpace(line);
    if i == |line| then Err(Malformed(st.line))
    else
      var rest := TrimStart(line[i + 1..]);
      if rest == [] || rest[0] != '-' || !GoodTag(line[..i]) then Err(Malformed(st.line))
      else TakeTag(st, Upper(line[..i]), Trim(rest[1..]))
  }

  function Step(before: State, raw: string): Result<State, RisError> {
    var st := before.(line := before.line + 1);
    var line := StripCr(raw);
    if Trim(line) == [] then Ok(st)
    else if line[0] == ' ' || line[0] == '\t' then Continue(st, line)
    else TagLine(st, line)
  }

  type Reader = (State, string) -> Result<State, RisError>

  /** All lines in turn, stopping at the first that is refused. */
  function Steps(step: Reader, st: State, lines: seq<string>): Result<State, RisError>
    decreases |lines|
  {
    if lines == [] then Ok(st)
    else
      match step(st, lines[0])
      case Err(e) => Err(e)
      case Ok(next) => Steps(step, next, lines[1..])
  }

  function Parse(input: string): Result<seq<Record>, RisError> {
    match Steps(Step, State([], [], 0), Lines(input))
    case Err(e) => Err(e)
    case Ok(st) => if st.current == [] then Ok(st.records) else Err(MissingTerminator)
  }

  // ------------------------------------------------------------------ writing

  /** Line breaks become blanks. */
  function Flat(s: string): (r: string)
    ensures |r| == |s|
  {
    seq(|s|, i requires 0 <= i < |s| => if s[i] == '\n' then ' ' else s[i])
  }

  function WrittenLine(t: Tag): string { t.tag + "  - " + Flat(t.value) }

  /** The lines of the tags of a record, its terminator left out. */
  function TagLines(r: Record): seq<string> {
    if r == [] then []
    else if r[0].tag == "ER" then TagLines(r[1..])
    else [WrittenLine(r[0])] + TagLines(r[1..])
  }

  function RecordLines(r: Record): seq<string> { TagLines(r) + ["ER  -", ""] }

  function AllLinesFrom(records: seq<Record>, k: nat): seq<string>
    requires k <= |records|
    decreases |records| - k
  {
    if k == |records| then [] else RecordLines(records[k]) + AllLinesFrom(records, k + 1)
  }

  function AllLines(records: seq<Record>): seq<string> { AllLinesFrom(records, 0) }

  function Joined(lines: seq<string>): string {
    if lines == [] then [] else lines[0] + "\n" + Joined(lines[1..])
  }

  predicate HasType(r: Record) { exists t <- r :: t.tag == "TY" }

  function WriteAll(records: seq<Record>): Result<string, RisError> {
    if forall r <- records :: HasType(r) then Ok(Joined(AllLines(records))) else Err(MissingType)
  }
}
