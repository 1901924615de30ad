/** Which field of a reference goes under which RIS tag,
  and how wrapped values are read (crates/nisaba-references/src/lib.rs). */
module RisFields {
  import opened Wrappers
  import opened RisText
  import opened RisRoundTrip
  import opened Decimals
  import opened Bibliography
  import opened RisExport

  // ------------------------------------------------------------------ the values under a tag

  /** All values under a tag, in order. */
  function Values(r: Record, tag: string): seq<string> {
    if r == [] then []
    else (if r[0].tag == tag then [r[0].value] else []) + Values(r[1..], tag)
  }

  function Maybe(value: Option<string>): seq<string> { if value.Some? then [value.value] else [] }

  /** `values` if it is the tag asked for. */
  function Under(tag: string, values: seq<string>, asked: string): seq<string> { if asked == tag then values else [] }

  lemma {:induction false} ValuesOfBoth(a: Record, b: Record, tag: string)
    ensures Values(a + b, tag) == Values(a, tag) + Values(b, tag)
  {
    if a == [] {
      assert a + b == b;
    } else {
      assert (a + b)[1..] == a[1..] + b;
      ValuesOfBoth(a[1..], b, tag);
    }
  }

  lemma ValuesOfOpt(tag: string, value: Option<string>, asked: string)
    ensures Values(Opt(tag, value), asked) == Under(tag, Maybe(value), asked)
  {
    if value.Some? { assert Opt(tag, value)[1..] == []; }
  }

  lemma {:induction false} ValuesOfEach(tag: string, values: seq<string>, asked: string)
    ensures Values(Each(tag, values), asked) == Under(tag, values, asked)
  {
    if values != [] {
      ValuesOfEach(tag, values[1..], asked);
      assert Each(tag, values)[1..] == Each(tag, values[1..]);
    }
  }

  lemma ValuesOfOne(tag: string, value: string, asked: string)
    ensures Values([Tag(tag, value)], asked) == Under(tag, [value], asked)
  {
    assert [Tag(tag, value)][1..] == [];
  }

  lemma {:induction false} NoValues(r: Record, tag: string)
    requires forall t <- r :: t.tag != tag
    ensures Values(r, tag) == []
  {
    if r != [] {
      assert r[0] in r && forall t <- r[1..] :: t in r;
      NoValues(r[1..], tag);
    }
  }

  // ------------------------------------------------------------------ the groups of a record

  function NamingUnder(m: Metadata, tag: string): seq<string> {
    Under("AU", Names(m.authors), tag) + Under("TI", [m.title], tag)
    + Under("T2", Maybe(m.container), tag) + Under("PB", Maybe(m.publisher), tag)
  }

  lemma NamingValues(m: Metadata, tag: string)
    ensures Values(NamingTags(m), tag) == NamingUnder(m, tag)
  {
    var authors, title := Each("AU", Names(m.authors)), [Tag("TI", m.title)];
    ValuesOfEach("AU", Names(m.authors), tag);
    ValuesOfOne("TI", m.title, tag);
    ValuesOfOpt("T2", m.container, tag);
    ValuesOfOpt("PB", m.publisher, tag);
    ValuesOfBoth(authors, title, tag);
    ValuesOfBoth(authors + title, Opt("T2", m.container), tag);
    ValuesOfBoth(authors + title + Opt("T2", m.container), Opt("PB", m.publisher), tag);
  }

  function YearText(year: Option<int>): Option<string> {
    if year.Some? then Some(SignedDecimal(year.value)) else None
  }

  function SubjectUnder(m: Metadata, tag: string): seq<string> {
    Under("AB", Maybe(m.abstractText), tag) + Under("KW", m.keywords, tag)
    + Under("LA", Maybe(m.language), tag) + Under("PY", Maybe(YearText(m.year)), tag)
  }

  lemma SubjectValues(m: Metadata, tag: string)
    ensures Values(SubjectTags(m), tag) == SubjectUnder(m, tag)
  {
    var summary, words, language := Opt("AB", m.abstractText), Each("KW", m.keywords), Opt("LA", m.language);
    ValuesOfOpt("AB", m.abstractText, tag);
    ValuesOfEach("KW", m.keywords, tag);
    ValuesOfOpt("LA", m.language, tag);
    ValuesOfOpt("PY", YearText(m.year), tag);
    ValuesOfBoth(summary, words, tag);
    ValuesOfBoth(summary + words, language, tag);
    ValuesOfBoth(summary + words + language, Opt("PY", YearText(m.year)), tag);
  }

  function LocatorUnder(m: Metadata, tag: string): seq<string> {
    Under("VL", Maybe(m.volume), tag) + Under("IS", Maybe(m.issue), tag) + Under("DO", Maybe(m.doi), tag)
    + Under("PMID", Maybe(m.pmid), tag) + Under("UR", Maybe(m.url), tag)
  }

  lemma LocatorValues(m: Metadata, tag: string)
    ensures Values(LocatorTags(m), tag) == LocatorUnder(m, tag)
  {
    var volume, issue, doi, pmid := Opt("VL", m.volume), Opt("IS", m.issue), Opt("DO", m.doi), Opt("PMID", m.pmid);
    ValuesOfOpt("VL", m.volume, tag);
    ValuesOfOpt("IS", m.issue, tag);
    ValuesOfOpt("DO", m.doi, tag);
    ValuesOfOpt("PMID", m.pmid, tag);
    ValuesOfOpt("UR", m.url, tag);
    ValuesOfBoth(volume, issue, tag);
    ValuesOfBoth(volume + issue, doi, tag);
    ValuesOfBoth(volume + issue + doi, pmid, tag);
    ValuesOfBoth(volume + issue + doi + pmid, Opt("UR", m.url), tag);
  }

  /** The pages up to the first dash, and what comes after it if there is one. */
  function FirstPages(pages: Option<string>): Option<string> {
    if pages.Some? then Some(pages.value[..FirstDash(pages.value)]) else None
  }

  function LastPages(pages: Option<string>): Option<string> {
    if pages.Some? && FirstDash(pages.value) < |pages.value| then Some(pages.value[FirstDash(pages.value) + 1..])
    else None
  }

  lemma PageValues(pages: Option<string>, tag: string)
    ensures Values(PageTags(pages), tag) ==
            Under("SP", Maybe(FirstPages(pages)), tag) + Under("EP", Maybe(LastPages(pages)), tag)
  {
    if pages.Some? {
      var p, i := pages.value, FirstDash(pages.value);
      ValuesOfOne("SP", p[..i], tag);
      if i < |p| {
        ValuesOfOne("EP", p[i + 1..], tag);
        ValuesOfBoth([Tag("SP", p[..i])], [Tag("EP", p[i + 1..])], tag);
      } else {
        assert p[..i] == p;
      }
    }
  }

  lemma {:induction false} DashSplits(p: string)
    ensures '-' !in p[..FirstDash(p)] && (FirstDash(p) < |p| ==> p[FirstDash(p)] == '-')
  {
    if p != [] && p[0] != '-' {
      DashSplits(p[1..]);
      assert p[..FirstDash(p)] == [p[0]] + p[1..][..FirstDash(p[1..])];
    }
  }

  lemma {:induction false} ForeignKeeps(tags: seq<Tag>, tag: string)
    requires forall t <- tags :: t.tag != tag
    ensures Values(Foreign(tags), tag) == []
  {
    if tags != [] {
      assert tags[0] in tags && forall t <- tags[1..] :: t in tags;
      ForeignKeeps(tags[1..], tag);
      if Foreign(tags) != Foreign(tags[1..]) { assert Foreign(tags)[1..] == Foreign(tags[1..]); }
    }
  }

  // ------------------------------------------------------------------ the whole record

  lemma BodyValues(e: Entry, tag: string)
    requires tag != "N1" && forall t <- e.unknown :: t.tag != tag
    ensures Values(Body(e), tag) ==
            Values(NamingTags(e.metadata), tag) + (Values(SubjectTags(e.metadata), tag)
            + (Values(LocatorTags(e.metadata), tag) + Values(PageTags(e.metadata.pages), tag)))
  {
    var m := e.metadata;
    var naming, subject, locator, pages := NamingTags(m), SubjectTags(m), LocatorTags(m), PageTags(m.pages);
    var rest := Foreign(e.unknown) + NoteTags(e);
    assert Values(rest, tag) == [] by {
      ForeignKeeps(e.unknown, tag);
      ValuesOfEach("N1", Notes(e.provenance), tag);
      ValuesOfBoth(Foreign(e.unknown), NoteTags(e), tag);
    }
    ValuesOfBoth(pages, rest, tag);
    ValuesOfBoth(locator, pages + rest, tag);
    ValuesOfBoth(subject, locator + (pages + rest), tag);
    ValuesOfBoth(naming, subject + (locator + (pages + rest)), tag);
  }

  /** What the record of a reference holds under a tag. */
  lemma RecordValues(e: Entry, number: nat, tag: string)
    requires tag != "N1" && forall t <- e.unknown :: t.tag != tag
    ensures Values(RecordOf(e, Some(number)), tag) ==
            Under("TY", [RisType(e.metadata.itemType)], tag) + (Values(Body(e), tag)
            + (Under("AN", [e.id], tag) + Under("RN", [Decimal(number)], tag)))
  {
    var first, last := [Tag("TY", RisType(e.metadata.itemType))], [Tag("AN", e.id)] + Opt("RN", Some(Decimal(number)));
    ValuesOfOne("TY", RisType(e.metadata.itemType), tag);
    ValuesOfOne("AN", e.id, tag);
    ValuesOfOpt("RN", Some(Decimal(number)), tag);
    ValuesOfBoth([Tag("AN", e.id)], Opt("RN", Some(Decimal(number))), tag);
    ValuesOfBoth(Body(e), last, tag);
    ValuesOfBoth(first, Body(e) + last, tag);
  }

  /** The fields of a reference, each under the RIS tag that stands for it. */
  function FieldsUnder(e: Entry, number: nat, tag: string): seq<string> {
    var m := e.metadata;
    var pages := Under("SP", Maybe(FirstPages(m.pages)), tag) + Under("EP", Maybe(LastPages(m.pages)), tag);
    Under("TY", [RisType(m.itemType)], tag)
    + ((NamingUnder(m, tag) + (SubjectUnder(m, tag) + (LocatorUnder(m, tag) + pages)))
    + (Under("AN", [e.id], tag) + Under("RN", [Decimal(number)], tag)))
  }

  /** A record holds, under every tag no foreign tag has, exactly what the table says. */
  lemma RecordHoldsFields(e: Entry, number: nat, tag: string)
    requires tag != "N1" && forall t <- e.unknown :: t.tag != tag
    ensures Values(RecordOf(e, Some(number)), tag) == FieldsUnder(e, number, tag)
  {
    RecordValues(e, number, tag);
    BodyValues(e, tag);
    NamingValues(e.metadata, tag);
    SubjectValues(e.metadata, tag);
    LocatorValues(e.metadata, tag);
    PageValues(e.metadata.pages, tag);
  }

  // ------------------------------------------------------------------ wrapped values

  lemma BlankBefore(more: string)
    requires more != [] && Trim(more) == more
    ensures Trim(" " + more) == more && StripCr(" " + more) == " " + more
  {
    TrimDropsFirst(more);
    TrimEndPart(TrimStart(more));
    assert (" " + more)[|more|] == more[|more| - 1];
  }

  /** The state with one more tag, `n` lines on. */
  function WithTag(st: State, tag: string, value: string, n: nat): State {
    State(st.records, st.current + [Tag(tag, value)], st.line + n)
  }

  lemma TagIsRead(st: State, tag: string, v: string)
    requires CapitalTag(tag) && tag != "ER" && (tag == "TY" || st.current != []) && Trim(v) == v
    ensures Step(st, tag + "  - " + v) == Ok(WithTag(st, tag, v, 1))
  {
    StepReads(st, tag, v);
  }

  lemma MoreIsRead(st: State, tag: string, v: string, more: string)
    requires tag != "ER" && more != [] && Trim(more) == more && more[0] != '-'
    ensures Step(WithTag(st, tag, v, 1), " " + more) == Ok(WithTag(st, tag, v + " " + more, 2))
  {
    BlankBefore(more);
    var current := WithTag(st, tag, v, 1).current;
    assert current[..|current| - 1] == st.current && current[|current| - 1] == Tag(tag, v);
  }

  lemma TwoLines(step: Reader, st: State, first: string, mid: State, second: string, end: State)
    requires step(st, first) == Ok(mid) && step(mid, second) == Ok(end)
    ensures Steps(step, st, [first, second]) == Ok(end)
  {
    assert [first, second] == [first] + ([second] + []);
    StepsCons(step, st, first, [second] + [], mid);
    StepsCons(step, mid, second, [], end);
  }

  /** A value broken over two lines is read as one, with a blank between the parts. */
  lemma WrappedIsJoined(st: State, tag: string, v: string, more: string)
    requires CapitalTag(tag) && tag != "ER" && (tag == "TY" || st.current != []) && Trim(v) == v
    requires more != [] && Trim(more) == more && more[0] != '-'
    ensures Steps(Step, st, [tag + "  - " + v, " " + more]) == Ok(WithTag(st, tag, v + " " + more, 2))
  {
    TagIsRead(st, tag, v);
    MoreIsRead(st, tag, v, more);
    TwoLines(Step, st, tag + "  - " + v, WithTag(st, tag, v, 1), " " + more, WithTag(st, tag, v + " " + more, 2));
  }
}
