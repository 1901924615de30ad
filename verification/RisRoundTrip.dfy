/** Reading back written RIS records gives the same tags, their values trimmed and on one line. */
module RisRoundTrip {
  import opened Wrappers
  import opened Unicode
  import opened RisText

  // ------------------------------------------------------------------ strings

  lemma {:induction false} TrimDropsLast(s: string)
    requires s != [] && IsWhitespace(s[|s| - 1])
    ensures Trim(s) == Trim(s[..|s| - 1])
  {
    if IsWhitespace(s[0]) {
      if |s| > 1 {
        assert s[1..][..|s| - 2] == s[..|s| - 1][1..];
        TrimDropsLast(s[1..]);
      }
    }
  }

  lemma TrimStripsCr(s: string)
    ensures Trim(StripCr(s)) == Trim(s)
  {
    if s != [] && s[|s| - 1] == '\r' { TrimDropsLast(s); }
  }

  lemma TrimDropsFirst(s: string)
    ensures Trim(" " + s) == Trim(s)
  {
    assert (" " + s)[1..] == s;
  }

  lemma {:induction false} TrimEndKeepsFirst(s: string)
    requires s != [] && !IsWhitespace(s[0])
    ensures TrimEnd(s) != []
  {
    if IsWhitespace(s[|s| - 1]) { TrimEndKeepsFirst(s[..|s| - 1]); }
  }

  lemma {:induction false} FirstSpaceAfter(tag: string, rest: string)
    requires (forall c <- tag :: !IsWhitespace(c)) && rest != [] && IsWhitespace(rest[0])
    ensures FirstSpace(tag + rest) == |tag|
  {
    if tag == [] {
      assert tag + rest == rest;
    } else {
      assert (tag + rest)[1..] == tag[1..] + rest;
      assert tag[0] in tag && forall c <- tag[1..] :: c in tag;
      FirstSpaceAfter(tag[1..], rest);
    }
  }

  lemma {:induction false} FirstBreakAfter(l: string, rest: string)
    requires '\n' !in l
    ensures FirstBreak(l + "\n" + rest) == |l|
  {
    if l == [] {
      assert (l + "\n" + rest)[0] == '\n';
    } else {
      assert (l + "\n" + rest)[1..] == l[1..] + "\n" + rest;
      FirstBreakAfter(l[1..], rest);
    }
  }

  function Stripped(lines: seq<string>): seq<string> {
    if lines == [] then [] else [StripCr(lines[0])] + Stripped(lines[1..])
  }

  lemma LinesOfOne(l: string, rest: string)
    requires '\n' !in l
    ensures Lines(l + "\n" + rest) == [StripCr(l)] + Lines(rest)
  {
    var s := l + "\n" + rest;
    FirstBreakAfter(l, rest);
    assert s[..|l|] == l && s[|l| + 1..] == rest;
  }

  /** Lines without breaks, joined and split again, are the same but for a trailing return. */
  lemma {:induction false} LinesOfJoined(lines: seq<string>)
    requires forall l <- lines :: '\n' !in l
    ensures Lines(Joined(lines)) == Stripped(lines)
  {
    if lines != [] {
      LinesOfOne(lines[0], Joined(lines[1..]));
      LinesOfJoined(lines[1..]);
    }
  }

  // ------------------------------------------------------------------ one line

  /** A tag as the writer may meet it: capital letters and digits. */
  predicate CapitalTag(tag: string) { GoodTag(tag) && Upper(tag) == tag }

  lemma TagIsNotSpace(tag: string)
    requires GoodTag(tag)
    ensures forall c <- tag :: !IsWhitespace(c)
  {
    forall c <- tag ensures !IsWhitespace(c) { assert IsAlnum(c); }
  }

  lemma TagLineReads(st: State, tag: string, v: string)
    requires CapitalTag(tag)
    ensures TagLine(st, tag + "  - " + v) == TakeTag(st, tag, Trim(v))
  {
    var line, rest := tag + "  - " + v, " - " + v;
    TagIsNotSpace(tag);
    assert line == tag + ("  - " + v);
    FirstSpaceAfter(tag, "  - " + v);
    assert line[..|tag|] == tag && line[|tag| + 1..] == rest;
    assert rest[1..] == "- " + v;
    assert TrimStart(rest) == "- " + v;
    assert ("- " + v)[1..] == " " + v;
    TrimDropsFirst(v);
  }

  lemma StepReads(st: State, tag: string, v: string)
    requires CapitalTag(tag)
    ensures Step(st, tag + "  - " + v) == TakeTag(st.(line := st.line + 1), tag, Trim(v))
  {
    var raw := tag + "  - " + v;
    var line := tag + "  - " + StripCr(v);
    StripCrOfLine(tag, v);
    assert line[0] == tag[0] && IsAlnum(tag[0]);
    TrimEndKeepsFirst(line);
    TagLineReads(st.(line := st.line + 1), tag, StripCr(v));
    TrimStripsCr(v);
  }

  lemma StripCrOfLine(tag: string, v: string)
    ensures StripCr(tag + "  - " + v) == tag + "  - " + StripCr(v)
  {
    var raw := tag + "  - " + v;
    if v != [] { assert raw[|raw| - 1] == v[|v| - 1]; } else { assert raw[|raw| - 1] == ' '; }
  }

  lemma WrittenReads(st: State, t: Tag)
    requires CapitalTag(t.tag)
    ensures Step(st, StripCr(WrittenLine(t))) == TakeTag(st.(line := st.line + 1), t.tag, Trim(Flat(t.value)))
  {
    var v := Flat(t.value);
    StripCrOfLine(t.tag, v);
    StepReads(st, t.tag, StripCr(v));
    TrimStripsCr(v);
  }

  lemma EndReads(st: State)
    ensures Step(st, "ER  -") == TakeTag(st.(line := st.line + 1), "ER", "")
  {
    var st' := st.(line := st.line + 1);
    var line := "ER  -";
    assert Step(st, line) == TagLine(st', line) by { TrimEndKeepsFirst(line); }
    EndTagIsTwo();
    assert line[3..] == " -" && line[..2] == "ER";
    assert TrimStart(" -") == "-" by { assert " -"[1..] == "-"; }
    assert "-"[1..] == "";
    assert Upper("ER") == "ER";
  }

  lemma EndTagIsTwo()
    ensures FirstSpace("ER  -") == 2
  {
    assert "ER  -" == "ER" + "  -";
    FirstSpaceAfter("ER", "  -");
  }

  // ------------------------------------------------------------------ whole records

  /** What is read of a written record: terminators dropped, values on one line and trimmed. */
  function Cleaned(r: Record): Record {
    if r == [] then []
    else if r[0].tag == "ER" then Cleaned(r[1..])
    else [Tag(r[0].tag, Trim(Flat(r[0].value)))] + Cleaned(r[1..])
  }

  /** A read record ends with its terminator. */
  function Normal(r: Record): Record { Cleaned(r) + [Tag("ER", "")] }

  predicate CapitalTags(r: Record) { forall t <- r :: CapitalTag(t.tag) }

  /** The first tag that is written is the type. */
  predicate StartsWithType(r: Record) { Cleaned(r) != [] && Cleaned(r)[0].tag == "TY" }

  lemma {:induction false} StepsAppend(step: Reader, st: State, a: seq<string>, b: seq<string>)
    ensures Steps(step, st, a + b) == match Steps(step, st, a) case Err(e) => Err(e) case Ok(mid) => Steps(step, mid, b)
    decreases |a|
  {
    if a == [] {
      assert a + b == b;
    } else {
      assert (a + b)[1..] == a[1..] + b;
      if step(st, a[0]).Ok? { StepsAppend(step, step(st, a[0]).value, a[1..], b); }
    }
  }

  lemma {:induction false} StrippedAppend(a: seq<string>, b: seq<string>)
    ensures Stripped(a + b) == Stripped(a) + Stripped(b)
  {
    if a == [] {
      assert a + b == b;
    } else {
      assert (a + b)[1..] == a[1..] + b;
      StrippedAppend(a[1..], b);
    }
  }

  lemma StepsCons(step: Reader, st: State, l: string, lines: seq<string>, next: State)
    requires step(st, l) == Ok(next)
    ensures Steps(step, st, [l] + lines) == Steps(step, next, lines)
  {
    assert ([l] + lines)[1..] == lines;
  }

  /** The state after more tags have been taken in. */
  function Taken(st: State, tags: Record, lines: nat): State {
    st.(current := st.current + tags, line := st.line + lines)
  }

  lemma TakenMore(st: State, t: Tag, tags: Record, lines: nat)
    ensures Taken(Taken(st, [t], 1), tags, lines) == Taken(st, [t] + tags, lines + 1)
  {
    assert st.current + [t] + tags == st.current + ([t] + tags);
  }

  lemma FirstTagReads(st: State, t: Tag)
    requires CapitalTag(t.tag) && t.tag != "ER" && (st.current != [] || t.tag == "TY")
    ensures Step(st, StripCr(WrittenLine(t))) == Ok(Taken(st, [Tag(t.tag, Trim(Flat(t.value)))], 1))
  {
    WrittenReads(st, t);
  }

  /** The tags of a record are taken in turn, once it is open or if the type comes first. */
  lemma {:induction false} TagsRead(st: State, r: Record)
    requires CapitalTags(r) && (st.current != [] || Cleaned(r) == [] || StartsWithType(r))
    ensures Steps(Step, st, Stripped(TagLines(r))) == Ok(Taken(st, Cleaned(r), |TagLines(r)|))
    decreases |r|
  {
    if r == [] {
      assert st.current + [] == st.current;
    } else if r[0].tag == "ER" {
      TagsRead(st, r[1..]);
    } else {
      var t := Tag(r[0].tag, Trim(Flat(r[0].value)));
      var first, rest := StripCr(WrittenLine(r[0])), Stripped(TagLines(r[1..]));
      assert Stripped(TagLines(r)) == [first] + rest by { StrippedCons(WrittenLine(r[0]), TagLines(r[1..])); }
      assert Steps(Step, st, [first] + rest) == Steps(Step, Taken(st, [t], 1), rest) by {
        FirstTagReads(st, r[0]);
        StepsCons(Step, st, first, rest, Taken(st, [t], 1));
      }
      TagsRead(Taken(st, [t], 1), r[1..]);
      TakenMore(st, t, Cleaned(r[1..]), |TagLines(r[1..])|);
    }
  }

  lemma StrippedCons(l: string, lines: seq<string>)
    ensures Stripped([l] + lines) == [StripCr(l)] + Stripped(lines)
  {
    assert ([l] + lines)[1..] == lines;
  }

  /** The state after complete records have been read. */
  function Closed(st: State, records: seq<Record>, lines: nat): State {
    State(st.records + records, [], st.line + lines)
  }

  /** The state in the middle of a record. */
  function Opened(st: State, tags: Record, lines: nat): State {
    State(st.records, tags, st.line + lines)
  }

  /** The two lines that close a record. */
  lemma EndLinesRead(st: State, tags: Record, n: nat)
    ensures Steps(Step, Opened(st, tags, n), Stripped(["ER  -", ""]))
            == Ok(Closed(st, [tags + [Tag("ER", "")]], n + 2))
  {
    var open, mid := Opened(st, tags, n), Closed(st, [tags + [Tag("ER", "")]], n + 1);
    var lines := ["ER  -", ""];
    assert lines[1..] == [""] && [""][1..] == [];
    assert Stripped(lines) == ["ER  -"] + ([""] + []);
    EndReads(open);
    StepsCons(Step, open, "ER  -", [""] + [], mid);
    StepsCons(Step, mid, "", [], mid.(line := mid.line + 1));
  }

  lemma TypedTagsRead(st: State, r: Record)
    requires CapitalTags(r) && st.current == [] && StartsWithType(r)
    ensures Steps(Step, st, Stripped(TagLines(r))) == Ok(Opened(st, Cleaned(r), |TagLines(r)|))
  {
    assert Taken(st, Cleaned(r), |TagLines(r)|) == Opened(st, Cleaned(r), |TagLines(r)|);
    TagsRead(st, r);
  }

  lemma RecordReads(st: State, r: Record)
    requires CapitalTags(r) && st.current == [] && StartsWithType(r)
    ensures Steps(Step, st, Stripped(RecordLines(r))) == Ok(Closed(st, [Normal(r)], |RecordLines(r)|))
  {
    var n := |TagLines(r)|;
    TypedTagsRead(st, r);
    EndLinesRead(st, Cleaned(r), n);
    StepsJoin(Step, st, TagLines(r), Opened(st, Cleaned(r), n), ["ER  -", ""], Closed(st, [Normal(r)], n + 2));
  }

  lemma StepsJoin(step: Reader, st: State, a: seq<string>, mid: State, b: seq<string>, end: State)
    requires Steps(step, st, Stripped(a)) == Ok(mid) && Steps(step, mid, Stripped(b)) == Ok(end)
    ensures Steps(step, st, Stripped(a + b)) == Ok(end)
  {
    StrippedAppend(a, b);
    StepsAppend(step, st, Stripped(a), Stripped(b));
  }

  /** A record whose type does not come first is refused. */
  lemma {:induction false} LateTypeIsRefused(st: State, r: Record)
    requires CapitalTags(r) && st.current == [] && Cleaned(r) != [] && !StartsWithType(r)
    ensures Steps(Step, st, Stripped(TagLines(r))).Err?
  {
    if r[0].tag == "ER" {
      LateTypeIsRefused(st, r[1..]);
    } else {
      WrittenReads(st, r[0]);
      StrippedCons(WrittenLine(r[0]), TagLines(r[1..]));
    }
  }

  lemma {:induction false} TypeIsWritten(r: Record)
    requires HasType(r)
    ensures Cleaned(r) != []
  {
    if r[0].tag == "ER" {
      assert forall t <- r :: t == r[0] || t in r[1..];
      TypeIsWritten(r[1..]);
    }
  }

  /** Every record has a type, and tags of capital letters and digits. */
  ghost predicate Writable(records: seq<Record>) {
    forall i :: 0 <= i < |records| ==> CapitalTags(records[i]) && HasType(records[i])
  }

  ghost predicate AllStartWithType(records: seq<Record>) {
    forall i :: 0 <= i < |records| ==> StartsWithType(records[i])
  }

  lemma LateRecordIsRefused(st: State, r: Record)
    requires CapitalTags(r) && HasType(r) && st.current == [] && !StartsWithType(r)
    ensures Steps(Step, st, Stripped(RecordLines(r))).Err?
  {
    TypeIsWritten(r);
    LateTypeIsRefused(st, r);
    StrippedAppend(TagLines(r), ["ER  -", ""]);
    StepsAppend(Step, st, Stripped(TagLines(r)), Stripped(["ER  -", ""]));
  }

  // ------------------------------------------------------------------ chunks of lines

  function FlattenFrom(chunks: seq<seq<string>>, k: nat): seq<string>
    requires k <= |chunks|
    decreases |chunks| - k
  {
    if k == |chunks| then [] else chunks[k] + FlattenFrom(chunks, k + 1)
  }

  /** Between records, the lines of a chunk make one record. */
  ghost predicate Takes(step: Reader, chunk: seq<string>, out: Record, st: State) {
    Steps(step, st, chunk) == Ok(Closed(st, [out], |chunk|))
  }

  ghost predicate TakesAlways(step: Reader, chunk: seq<string>, out: Record) {
    forall st: State {:trigger Takes(step, chunk, out, st)} :: st.current == [] ==> Takes(step, chunk, out, st)
  }

  ghost predicate RefusedAlways(step: Reader, chunk: seq<string>) {
    forall st: State :: st.current == [] ==> Steps(step, st, chunk).Err?
  }

  lemma ClosedMore(st: State, outs: seq<Record>, k: nat, m: nat, n: nat)
    requires k < |outs|
    ensures Closed(Closed(st, [outs[k]], m), outs[k + 1..], n) == Closed(st, outs[k..], m + n)
  {
    assert st.records + [outs[k]] + outs[k + 1..] == st.records + outs[k..];
  }

  lemma {:induction false} ChunksRead(step: Reader, st: State, chunks: seq<seq<string>>, outs: seq<Record>, k: nat)
    requires |chunks| == |outs| && k <= |chunks| && st.current == []
    requires forall i {:trigger TakesAlways(step, chunks[i], outs[i])} :: k <= i < |chunks| ==>
               TakesAlways(step, chunks[i], outs[i])
    ensures Steps(step, st, FlattenFrom(chunks, k)) == Ok(Closed(st, outs[k..], |FlattenFrom(chunks, k)|))
    decreases |chunks| - k
  {
    if k == |chunks| {
      assert st.records + outs[k..] == st.records;
    } else {
      var c, rest := chunks[k], FlattenFrom(chunks, k + 1);
      var next := Closed(st, [outs[k]], |c|);
      assert TakesAlways(step, chunks[k], outs[k]);
      assert Takes(step, c, outs[k], st);
      StepsAppend(step, st, c, rest);
      ChunksRead(step, next, chunks, outs, k + 1);
      ClosedMore(st, outs, k, |c|, |rest|);
    }
  }

  /** The first chunk that is refused ends the reading. */
  lemma {:induction false} ChunkRefused(step: Reader, st: State, chunks: seq<seq<string>>, outs: seq<Record>, k: nat,
                                        bad: nat)
    requires |chunks| == |outs| && k <= bad < |chunks| && st.current == []
    requires forall i {:trigger TakesAlways(step, chunks[i], outs[i])} :: k <= i < bad ==>
               TakesAlways(step, chunks[i], outs[i])
    requires RefusedAlways(step, chunks[bad])
    ensures Steps(step, st, FlattenFrom(chunks, k)).Err?
    decreases bad - k
  {
    var c, rest := chunks[k], FlattenFrom(chunks, k + 1);
    StepsAppend(step, st, c, rest);
    if k == bad {
      assert Steps(step, st, c).Err?;
    } else {
      assert TakesAlways(step, chunks[k], outs[k]);
      assert Takes(step, c, outs[k], st);
      ChunkRefused(step, Closed(st, [outs[k]], |c|), chunks, outs, k + 1, bad);
    }
  }

  lemma RecordTaken(r: Record)
    requires CapitalTags(r) && StartsWithType(r)
    ensures TakesAlways(Step, Stripped(RecordLines(r)), Normal(r))
  {
    forall st: State | st.current == [] ensures Takes(Step, Stripped(RecordLines(r)), Normal(r), st) {
      RecordReads(st, r);
      StrippedLength(RecordLines(r));
    }
  }

  lemma RecordRefused(r: Record)
    requires CapitalTags(r) && HasType(r) && !StartsWithType(r)
    ensures RefusedAlways(Step, Stripped(RecordLines(r)))
  {
    forall st: State | st.current == [] ensures Steps(Step, st, Stripped(RecordLines(r))).Err? {
      LateRecordIsRefused(st, r);
    }
  }

  lemma {:induction false} StrippedLength(lines: seq<string>)
    ensures |Stripped(lines)| == |lines|
  {
    if lines != [] { StrippedLength(lines[1..]); }
  }

  function Chunks(records: seq<Record>): (r: seq<seq<string>>)
    ensures |r| == |records|
  {
    seq(|records|, i requires 0 <= i < |records| => Stripped(RecordLines(records[i])))
  }

  function Normals(records: seq<Record>): (r: seq<Record>)
    ensures |r| == |records|
  {
    seq(|records|, i requires 0 <= i < |records| => Normal(records[i]))
  }

  lemma {:induction false} StrippedAll(records: seq<Record>, k: nat)
    requires k <= |records|
    ensures Stripped(AllLinesFrom(records, k)) == FlattenFrom(Chunks(records), k)
    decreases |records| - k
  {
    if k < |records| {
      StrippedAppend(RecordLines(records[k]), AllLinesFrom(records, k + 1));
      StrippedAll(records, k + 1);
    }
  }

  lemma AllRead(records: seq<Record>)
    requires Writable(records) && AllStartWithType(records)
    ensures Steps(Step, State([], [], 0), Stripped(AllLines(records)))
            == Ok(State(Normals(records), [], |AllLines(records)|))
  {
    var chunks, outs := Chunks(records), Normals(records);
    forall i | 0 <= i < |records| ensures TakesAlways(Step, chunks[i], outs[i]) { RecordTaken(records[i]); }
    ChunksRead(Step, State([], [], 0), chunks, outs, 0);
    StrippedAll(records, 0);
    StrippedLength(AllLines(records));
    assert [] + outs[0..] == outs;
  }

  lemma LateIsRefused(records: seq<Record>, bad: nat)
    requires Writable(records) && bad < |records| && !StartsWithType(records[bad])
    requires forall i :: 0 <= i < bad ==> StartsWithType(records[i])
    ensures Steps(Step, State([], [], 0), Stripped(AllLines(records))).Err?
  {
    var chunks, outs := Chunks(records), Normals(records);
    forall i | 0 <= i < bad ensures TakesAlways(Step, chunks[i], outs[i]) { RecordTaken(records[i]); }
    RecordRefused(records[bad]);
    ChunkRefused(Step, State([], [], 0), chunks, outs, 0, bad);
    StrippedAll(records, 0);
  }

  lemma FirstLate(records: seq<Record>) returns (bad: nat)
    requires !AllStartWithType(records)
    ensures bad < |records| && !StartsWithType(records[bad]) && forall i :: 0 <= i < bad ==> StartsWithType(records[i])
  {
    bad := 0;
    while StartsWithType(records[bad])
      invariant bad < |records| && forall i :: 0 <= i < bad ==> StartsWithType(records[i])
      decreases |records| - bad
    {
      bad := bad + 1;
    }
  }

  // ------------------------------------------------------------------ whole texts

  lemma LineHasNoBreak(t: Tag)
    requires CapitalTag(t.tag)
    ensures '\n' !in WrittenLine(t)
  {
    assert forall c <- t.tag :: IsAlnum(c);
  }

  lemma {:induction false} TagLinesHaveNoBreak(r: Record)
    requires CapitalTags(r)
    ensures forall l <- TagLines(r) :: '\n' !in l
  {
    if r != [] {
      TagLinesHaveNoBreak(r[1..]);
      LineHasNoBreak(r[0]);
    }
  }

  lemma {:induction false} LinesHaveNoBreak(records: seq<Record>, k: nat)
    requires Writable(records) && k <= |records|
    ensures forall l <- AllLinesFrom(records, k) :: '\n' !in l
    decreases |records| - k
  {
    if k < |records| {
      LinesHaveNoBreak(records, k + 1);
      TagLinesHaveNoBreak(records[k]);
    }
  }

  /**
    Written records are read back with the same tags in the same order, values trimmed and
    on one line, exactly if each of them has its type first; otherwise they are refused.
   */
  lemma ParseWritten(records: seq<Record>)
    requires Writable(records)
    ensures WriteAll(records).Ok?
    ensures var back := Parse(WriteAll(records).value);
            if AllStartWithType(records) then back == Ok(Normals(records)) else back.Err?
  {
    LinesHaveNoBreak(records, 0);
    LinesOfJoined(AllLines(records));
    if AllStartWithType(records) {
      AllRead(records);
    } else {
      var bad := FirstLate(records);
      LateIsRefused(records, bad);
    }
  }
}
