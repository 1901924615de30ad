/** References as RIS records, and what can be read of them again (crates/nisaba-references/src/lib.rs). */
module RisExport {
  import opened Wrappers
  import opened Unicode
  import opened RisText
  import opened RisRoundTrip
  import opened Decimals
  import opened Bibliography

  // ------------------------------------------------------------------ from a reference to a record

  function DisplayName(p: Person): string {
    match p.literal
    case Some(name) => name
    case None =>
      match (p.family, p.given)
      case (Some(family), Some(given)) => family + ", " + given
      case (Some(family), None) => family
      case (None, Some(given)) => given
      case (None, None) => "UnknownAuthor"
  }

  function RisType(itemType: Option<string>): string {
    if itemType == Some("book") then "BOOK"
    else if itemType == Some("chapter") then "CHAP"
    else if itemType == Some("report") then "RPRT"
    else "JOUR"
  }

  function Opt(tag: string, value: Option<string>): Record {
    match value case None => [] case Some(v) => [Tag(tag, v)]
  }

  function Each(tag: string, values: seq<string>): Record {
    if values == [] then [] else [Tag(tag, values[0])] + Each(tag, values[1..])
  }

  function Names(authors: seq<Person>): seq<string> {
    if authors == [] then [] else [DisplayName(authors[0])] + Names(authors[1..])
  }

  function FirstDash(s: string): (r: nat)
    ensures r <= |s|
  {
    if s == [] || s[0] == '-' then 0 else 1 + FirstDash(s[1..])
  }

  /** Pages are split at the first dash. */
  function PageTags(pages: Option<string>): Record {
    match pages
    case None => []
    case Some(p) =>
      var i := FirstDash(p);
      if i == |p| then [Tag("SP", p)] else [Tag("SP", p[..i]), Tag("EP", p[i + 1..])]
  }

  /** Foreign tags, without any that would open or close a record. */
  function Foreign(tags: seq<Tag>): Record {
    if tags == [] then []
    else if tags[0].tag == "TY" || tags[0].tag == "ER" then Foreign(tags[1..])
    else [tags[0]] + Foreign(tags[1..])
  }

  function Note(p: Provenance): string {
    "database search: " + p.search + "; database: " + p.database + "; search date: " + p.date
  }

  function Notes(ps: seq<Provenance>): seq<string> {
    if ps == [] then [] else [Note(ps[0])] + Notes(ps[1..])
  }

  function NoteTags(e: Entry): Record {
    if exists t <- e.unknown :: t.tag == "N1" then [] else Each("N1", Notes(e.provenance))
  }

  function NamingTags(m: Metadata): Record {
    Each("AU", Names(m.authors)) + [Tag("TI", m.title)] + Opt("T2", m.container) + Opt("PB", m.publisher)
  }

  function SubjectTags(m: Metadata): Record {
    Opt("AB", m.abstractText) + Each("KW", m.keywords) + Opt("LA", m.language)
    + Opt("PY", match m.year case None => None case Some(y) => Some(SignedDecimal(y)))
  }

  function LocatorTags(m: Metadata): Record {
    Opt("VL", m.volume) + Opt("IS", m.issue) + Opt("DO", m.doi) + Opt("PMID", m.pmid) + Opt("UR", m.url)
  }

  /** Everything between the type of a record and its accession number. */
  function Body(e: Entry): Record {
    NamingTags(e.metadata) + (SubjectTags(e.metadata) + (LocatorTags(e.metadata)
    + (PageTags(e.metadata.pages) + (Foreign(e.unknown) + NoteTags(e)))))
  }

  function RecordOf(e: Entry, number: Option<nat>): Record {
    [Tag("TY", RisType(e.metadata.itemType))] + (Body(e) + ([Tag("AN", e.id)]
    + Opt("RN", match number case None => None case Some(n) => Some(Decimal(n)))))
  }

  function ToRisRecord(e: Entry, number: Option<nat>): Result<Record, ReferenceError> {
    if Trim(e.metadata.title) == [] then Err(MissingTitle) else Ok(RecordOf(e, number))
  }

  // ------------------------------------------------------------------ what is read of a record

  function Find(r: Record, tag: string): Option<string> {
    if r == [] then None else if r[0].tag == tag then Some(r[0].value) else Find(r[1..], tag)
  }

  predicate HasTitle(r: Record) { Find(r, "TI").Some? || Find(r, "T1").Some? }

  // ------------------------------------------------------------------ tags of the body

  /** A tag that is neither one of the record's frame nor one of its two keys. */
  predicate BodyTag(tag: string) {
    CapitalTag(tag) && tag != "TY" && tag != "ER" && tag != "AN" && tag != "RN"
  }

  predicate BodyTags(r: Record) { forall t <- r :: BodyTag(t.tag) }

  predicate Capitals(tag: string) { tag != [] && forall c <- tag :: 'A' <= c <= 'Z' || '0' <= c <= '9' }

  lemma CapitalsAreCapital(tag: string)
    requires Capitals(tag)
    ensures CapitalTag(tag)
  {
    forall i | 0 <= i < |tag| ensures UpperChar(tag[i]) == tag[i] { assert tag[i] in tag; }
  }

  lemma OptTags(tag: string, value: Option<string>)
    requires BodyTag(tag)
    ensures BodyTags(Opt(tag, value))
  {
  }

  lemma {:induction false} EachTags(tag: string, values: seq<string>)
    requires BodyTag(tag)
    ensures BodyTags(Each(tag, values))
  {
    if values != [] { EachTags(tag, values[1..]); }
  }

  lemma BothTags(a: Record, b: Record)
    requires BodyTags(a) && BodyTags(b)
    ensures BodyTags(a + b)
  {
  }

  lemma NamingIsBody(m: Metadata)
    ensures BodyTags(NamingTags(m))
  {
    CapitalsAreCapital("AU");
    CapitalsAreCapital("TI");
    CapitalsAreCapital("T2");
    CapitalsAreCapital("PB");
    EachTags("AU", Names(m.authors));
    OptTags("T2", m.container);
    OptTags("PB", m.publisher);
    BothTags(Each("AU", Names(m.authors)), [Tag("TI", m.title)]);
  }

  lemma SubjectIsBody(m: Metadata)
    ensures BodyTags(SubjectTags(m))
  {
    CapitalsAreCapital("AB");
    CapitalsAreCapital("KW");
    CapitalsAreCapital("LA");
    CapitalsAreCapital("PY");
    EachTags("KW", m.keywords);
  }

  lemma LocatorIsBody(m: Metadata)
    ensures BodyTags(LocatorTags(m))
  {
    CapitalsAreCapital("VL");
    CapitalsAreCapital("IS");
    CapitalsAreCapital("DO");
    CapitalsAreCapital("PMID");
    CapitalsAreCapital("UR");
  }

  lemma PagesAreBody(pages: Option<string>)
    ensures BodyTags(PageTags(pages))
  {
    CapitalsAreCapital("SP");
    CapitalsAreCapital("EP");
  }

  /** The foreign tags a reference may carry: none the exporter writes or reads for itself. */
  predicate ForeignTags(tags: seq<Tag>) {
    forall t <- tags :: CapitalTag(t.tag) && t.tag !in KNOWN_TAGS
  }

  const KNOWN_TAGS: set<string> := {
    "TY", "ER", "AU", "A1", "TI", "T1", "T2", "JF", "JO", "PY", "Y1", "DA", "DP", "VL", "IS", "SP",
    "EP", "DO", "UR", "AN", "RN", "AB", "LA", "PB", "KW", "PMID"
  }

  lemma {:induction false} ForeignIsBody(tags: seq<Tag>)
    requires ForeignTags(tags)
    ensures BodyTags(Foreign(tags))
  {
    if tags != [] {
      assert tags[0] in tags && forall t <- tags[1..] :: t in tags;
      ForeignIsBody(tags[1..]);
    }
  }

  lemma NotesAreBody(e: Entry)
    ensures BodyTags(NoteTags(e))
  {
    CapitalsAreCapital("N1");
    EachTags("N1", Notes(e.provenance));
  }

  lemma BodyIsBody(e: Entry)
    requires ForeignTags(e.unknown)
    ensures BodyTags(Body(e))
  {
    var m := e.metadata;
    NamingIsBody(m);
    SubjectIsBody(m);
    LocatorIsBody(m);
    PagesAreBody(m.pages);
    ForeignIsBody(e.unknown);
    NotesAreBody(e);
    var tail := Foreign(e.unknown) + NoteTags(e);
    BothTags(Foreign(e.unknown), NoteTags(e));
    BothTags(PageTags(m.pages), tail);
    BothTags(LocatorTags(m), PageTags(m.pages) + tail);
    BothTags(SubjectTags(m), LocatorTags(m) + (PageTags(m.pages) + tail));
    BothTags(NamingTags(m), SubjectTags(m) + (LocatorTags(m) + (PageTags(m.pages) + tail)));
  }

  // ------------------------------------------------------------------ reading the keys back

  lemma {:induction false} CleanedAppend(a: Record, b: Record)
    ensures Cleaned(a + b) == Cleaned(a) + Cleaned(b)
  {
    if a == [] {
      assert a + b == b;
    } else {
      assert (a + b)[1..] == a[1..] + b;
      CleanedAppend(a[1..], b);
    }
  }

  lemma {:induction false} CleanedBody(r: Record)
    requires BodyTags(r)
    ensures BodyTags(Cleaned(r))
  {
    if r != [] {
      assert r[0] in r && forall t <- r[1..] :: t in r;
      CleanedBody(r[1..]);
    }
  }

  lemma {:induction false} FindSkips(a: Record, b: Record, tag: string)
    requires forall t <- a :: t.tag != tag
    ensures Find(a + b, tag) == Find(b, tag)
  {
    if a == [] {
      assert a + b == b;
    } else {
      assert (a + b)[1..] == a[1..] + b;
      assert a[0] in a && forall t <- a[1..] :: t in a;
      FindSkips(a[1..], b, tag);
    }
  }

  lemma {:induction false} FindPresent(a: Record, b: Record, tag: string)
    requires Find(b, tag).Some?
    ensures Find(a + b, tag).Some?
  {
    if a == [] {
      assert a + b == b;
    } else {
      assert (a + b)[1..] == a[1..] + b;
      FindPresent(a[1..], b, tag);
    }
  }

  lemma {:induction false} FindFront(a: Record, b: Record, tag: string)
    requires Find(a, tag).Some?
    ensures Find(a + b, tag) == Find(a, tag)
  {
    assert (a + b)[1..] == a[1..] + b;
    if a[0].tag != tag { FindFront(a[1..], b, tag); }
  }

  lemma {:induction false} CleanedFind(r: Record, tag: string)
    requires tag != "ER"
    ensures Find(Cleaned(r), tag).Some? == Find(r, tag).Some?
  {
    if r != [] { CleanedFind(r[1..], tag); }
  }

  lemma BodyHasTitle(e: Entry)
    ensures Find(Body(e), "TI").Some?
  {
    var m := e.metadata;
    var a := Each("AU", Names(m.authors));
    var t := [Tag("TI", m.title)];
    FindPresent(a, t, "TI");
    FindFront(a + t, Opt("T2", m.container), "TI");
    FindFront(a + t + Opt("T2", m.container), Opt("PB", m.publisher), "TI");
    FindFront(NamingTags(m), SubjectTags(m) + (LocatorTags(m)
      + (PageTags(m.pages) + (Foreign(e.unknown) + NoteTags(e)))), "TI");
  }

  // ------------------------------------------------------------------ values that survive

  /** A value that is read back as it is: on one line and without blanks around it. */
  predicate Plain(s: string) { Trim(s) == s && '\n' !in s }

  lemma PlainIsFlat(s: string)
    requires '\n' !in s
    ensures Flat(s) == s
  {
    assert forall i :: 0 <= i < |s| ==> s[i] in s;
  }

  lemma DecimalIsPlain(n: nat)
    ensures Plain(Decimal(n))
  {
    DecimalDigits(n);
    var s := Decimal(n);
    assert s[0] in s && s[|s| - 1] in s;
    assert forall c <- s :: IsDigit(c);
  }

  /** What is read of a value that was written. */
  function Clean(s: string): string { Trim(Flat(s)) }

  lemma PlainStays(s: string)
    requires Plain(s)
    ensures Clean(s) == s
  {
    PlainIsFlat(s);
  }

  lemma {:induction false} TrimStartPart(s: string)
    ensures |TrimStart(s)| <= |s| && TrimStart(s) == s[|s| - |TrimStart(s)|..]
    ensures TrimStart(s) != [] ==> !IsWhitespace(TrimStart(s)[0])
  {
    if s != [] && IsWhitespace(s[0]) {
      TrimStartPart(s[1..]);
      var n := |TrimStart(s)|;
      assert s[1..][|s| - 1 - n..] == s[|s| - n..];
    }
  }

  lemma {:induction false} TrimEndPart(s: string)
    ensures |TrimEnd(s)| <= |s| && TrimEnd(s) == s[..|TrimEnd(s)|]
    ensures TrimEnd(s) != [] ==> !IsWhitespace(TrimEnd(s)[|TrimEnd(s)| - 1])
  {
    if s != [] && IsWhitespace(s[|s| - 1]) { TrimEndPart(s[..|s| - 1]); }
  }

  lemma TrimmedStays(s: string)
    requires s != [] ==> !IsWhitespace(s[0]) && !IsWhitespace(s[|s| - 1])
    ensures Trim(s) == s
  {
  }

  lemma TrimIsTrimmed(s: string)
    ensures Trim(Trim(s)) == Trim(s)
  {
    var a := TrimStart(s);
    TrimStartPart(s);
    TrimEndPart(a);
    assert TrimEnd(a) != [] ==> TrimEnd(a)[0] == a[0];
    TrimmedStays(TrimEnd(a));
  }

  lemma TrimIsPart(s: string, c: char)
    requires c in Trim(s)
    ensures c in s
  {
    TrimStartPart(s);
    TrimEndPart(TrimStart(s));
  }

  lemma FlatHasNoBreak(s: string)
    ensures '\n' !in Flat(s)
  {
  }

  /** Whatever is read is plain. */
  lemma CleanIsPlain(s: string)
    ensures Plain(Clean(s))
  {
    TrimIsTrimmed(Flat(s));
    FlatHasNoBreak(s);
    if '\n' in Clean(s) { TrimIsPart(Flat(s), '\n'); }
  }

  /** The accession number and the reference number that end a record. */
  function Keys(id: string, number: string): Record { [Tag("AN", id), Tag("RN", number)] }

  lemma KeysStay(id: string, number: string)
    requires Plain(number)
    ensures Cleaned(Keys(id, number)) == Keys(Clean(id), number)
  {
    PlainStays(number);
    assert Cleaned([Tag("RN", number)]) == [Tag("RN", number)] by { assert [Tag("RN", number)][1..] == []; }
    assert Keys(id, number)[1..] == [Tag("RN", number)];
  }

  lemma RecordShape(e: Entry, n: nat)
    ensures RecordOf(e, Some(n)) == [Tag("TY", RisType(e.metadata.itemType))] + (Body(e) + Keys(e.id, Decimal(n)))
  {
    assert [Tag("AN", e.id)] + [Tag("RN", Decimal(n))] == Keys(e.id, Decimal(n));
  }

  lemma CleanedRecord(e: Entry, n: nat)
    requires ForeignTags(e.unknown)
    ensures var kind := Tag("TY", Trim(Flat(RisType(e.metadata.itemType))));
            Cleaned(RecordOf(e, Some(n))) == [kind] + (Cleaned(Body(e)) + Keys(Clean(e.id), Decimal(n)))
  {
    RecordShape(e, n);
    var kind, rest := Tag("TY", RisType(e.metadata.itemType)), Body(e) + Keys(e.id, Decimal(n));
    assert ([kind] + rest)[1..] == rest;
    CleanedAppend(Body(e), Keys(e.id, Decimal(n)));
    DecimalIsPlain(n);
    KeysStay(e.id, Decimal(n));
  }

  lemma KeysAreFound(kind: Tag, body: Record, id: string, number: string)
    requires kind.tag == "TY" && BodyTags(body)
    ensures var r := [kind] + (body + Keys(id, number)) + [Tag("ER", "")];
            Find(r, "AN") == Some(id) && Find(r, "RN") == Some(number)
  {
    var end := Keys(id, number) + [Tag("ER", "")];
    var r := [kind] + (body + Keys(id, number)) + [Tag("ER", "")];
    assert r == ([kind] + body) + end;
    FindSkips([kind] + body, end, "AN");
    FindSkips([kind] + body, end, "RN");
    assert end[1..] == [Tag("RN", number), Tag("ER", "")];
  }

  /** The id and the number of a reference can be read from its record. */
  lemma RecordReadsBack(e: Entry, n: nat)
    requires ForeignTags(e.unknown)
    ensures var back := Normal(RecordOf(e, Some(n)));
            Find(back, "AN") == Some(Clean(e.id)) && Find(back, "RN") == Some(Decimal(n))
  {
    CleanedRecord(e, n);
    BodyIsBody(e);
    CleanedBody(Body(e));
    KeysAreFound(Tag("TY", Trim(Flat(RisType(e.metadata.itemType)))), Cleaned(Body(e)), Clean(e.id), Decimal(n));
  }

  lemma RecordHasTitle(e: Entry, n: nat)
    requires ForeignTags(e.unknown)
    ensures HasTitle(Normal(RecordOf(e, Some(n))))
  {
    var kind := Tag("TY", Trim(Flat(RisType(e.metadata.itemType))));
    var body, keys := Cleaned(Body(e)), Keys(Clean(e.id), Decimal(n));
    CleanedRecord(e, n);
    BodyHasTitle(e);
    CleanedFind(Body(e), "TI");
    FindFront(body, keys, "TI");
    FindPresent([kind], body + keys, "TI");
    FindFront([kind] + (body + keys), [Tag("ER", "")], "TI");
  }

  lemma FrameIsCapital(kind: Tag, body: Record, id: string, number: string)
    requires kind.tag == "TY" && BodyTags(body)
    ensures CapitalTags([kind] + (body + Keys(id, number)))
  {
    CapitalsAreCapital("TY");
    CapitalsAreCapital("AN");
    CapitalsAreCapital("RN");
  }

  lemma RecordIsCapital(e: Entry, n: nat)
    requires ForeignTags(e.unknown)
    ensures CapitalTags(RecordOf(e, Some(n)))
  {
    RecordShape(e, n);
    BodyIsBody(e);
    FrameIsCapital(Tag("TY", RisType(e.metadata.itemType)), Body(e), e.id, Decimal(n));
  }

  lemma RecordStartsWithType(e: Entry, n: nat)
    requires ForeignTags(e.unknown)
    ensures StartsWithType(RecordOf(e, Some(n))) && HasType(RecordOf(e, Some(n)))
  {
    var r := RecordOf(e, Some(n));
    assert r[0].tag == "TY" && r[0] in r;
    CleanedRecord(e, n);
  }
}
