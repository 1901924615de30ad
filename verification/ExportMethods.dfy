/** The loops of the reference exporter, each against the function that says what it computes. */
module ExportMethods {
  import opened Wrappers
  import opened Binary
  import opened Utf8
  import opened Files
  import opened Sorting
  import opened Occurrence
  import opened RisText
  import opened Bibliography
  import opened RisExport
  import opened ExportTree
  import opened ExportContents

  // ------------------------------------------------------------------ RIS text

  method ParseRis(input: string) returns (r: Result<seq<Record>, RisError>)
    ensures r == Parse(input)
  {
    var lines := Lines(input);
    var st := State([], [], 0);
    for i := 0 to |lines|
      invariant Steps(Step, State([], [], 0), lines) == Steps(Step, st, lines[i..])
    {
      var next := Step(st, lines[i]);
      assert lines[i..][0] == lines[i] && lines[i..][1..] == lines[i + 1..];
      if next.Err? { return Err(next.error); }
      st := next.value;
    }
    if st.current != [] { return Err(MissingTerminator); }
    r := Ok(st.records);
  }

  lemma {:induction false} JoinedAppend(a: seq<string>, b: seq<string>)
    ensures Joined(a + b) == Joined(a) + Joined(b)
  {
    if a == [] {
      assert a + b == b;
    } else {
      assert (a + b)[1..] == a[1..] + b;
      JoinedAppend(a[1..], b);
    }
  }

  lemma JoinedOne(line: string)
    ensures Joined([line]) == line + "\n"
  {
    assert [line][1..] == [];
  }

  method WriteTags(r: Record) returns (out: string)
    ensures out == Joined(TagLines(r))
  {
    out := "";
    for i := 0 to |r|
      invariant out + Joined(TagLines(r[i..])) == Joined(TagLines(r))
    {
      assert r[i..][0] == r[i] && r[i..][1..] == r[i + 1..];
      if r[i].tag != "ER" {
        out := out + (r[i].tag + "  - " + Flat(r[i].value) + "\n");
      }
    }
    assert r[|r|..] == [];
  }

  lemma RecordText(r: Record)
    ensures Joined(RecordLines(r)) == Joined(TagLines(r)) + "ER  -\n\n"
  {
    JoinedAppend(TagLines(r), ["ER  -", ""]);
    assert ["ER  -", ""][1..] == [""];
    JoinedOne("");
  }

  method WriteRis(records: seq<Record>) returns (r: Result<string, RisError>)
    ensures r == WriteAll(records)
  {
    var out := "";
    for i := 0 to |records|
      invariant out + Joined(AllLinesFrom(records, i)) == Joined(AllLines(records))
      invariant forall j :: 0 <= j < i ==> HasType(records[j])
    {
      if !HasType(records[i]) {
        assert records[i] in records;
        return Err(MissingType);
      }
      var tags := WriteTags(records[i]);
      RecordText(records[i]);
      JoinedAppend(RecordLines(records[i]), AllLinesFrom(records, i + 1));
      out := out + (tags + "ER  -\n\n");
    }
    assert out + [] == out && forall record <- records :: HasType(record);
    r := Ok(out);
  }

  // ------------------------------------------------------------------ numbering

  lemma {:induction false} FirstCitationIs(citations: seq<string>, id: string, i: nat)
    requires i < |citations| && citations[i] == id && forall j :: 0 <= j < i ==> citations[j] != id
    ensures FirstCitation(citations, id) == i
  {
    if i > 0 { FirstCitationIs(citations[1..], id, i - 1); }
  }

  lemma {:induction false} UnknownIs(citations: seq<string>, ids: seq<string>, i: nat)
    requires i <= |citations| && forall j :: 0 <= j < i ==> citations[j] in ids
    requires i < |citations| ==> citations[i] !in ids
    ensures UnknownIn(citations, ids) == if i < |citations| then Some(citations[i]) else None
  {
    if i > 0 { UnknownIs(citations[1..], ids, i - 1); }
  }

  /** Sorting depends only on how the order compares. */
  lemma {:induction false} SameOrderSameSort(s: seq<string>, p: (string, string) -> bool, q: (string, string) -> bool)
    requires forall a, b :: p(a, b) == q(a, b)
    ensures Sort(s, p) == Sort(s, q)
  {
    if s != [] {
      SameOrderSameSort(s[1..], p, q);
      SameOrderSameInsertion(s[0], Sort(s[1..], p), p, q);
    }
  }

  lemma {:induction false} SameOrderSameInsertion(
    x: string, s: seq<string>, p: (string, string) -> bool, q: (string, string) -> bool)
    requires forall a, b :: p(a, b) == q(a, b)
    ensures Insertion(x, s, p) == Insertion(x, s, q)
  {
    if s != [] { SameOrderSameInsertion(x, s[1..], p, q); }
  }

  /** The first position of every id cited, or the first citation of an id nobody has. */
  method FirstPositions(ids: seq<string>, citations: seq<string>) returns (r: Result<map<string, nat>, string>)
    ensures r.Err? ==> UnknownIn(citations, ids) == Some(r.error)
    ensures r.Ok? ==> UnknownIn(citations, ids) == None
    ensures r.Ok? ==> forall id :: (if id in r.value then r.value[id] else |citations|) == FirstCitation(citations, id)
  {
    var known := set id | id in ids;
    var first: map<string, nat> := map[];
    for i := 0 to |citations|
      invariant forall j :: 0 <= j < i ==> citations[j] in ids && citations[j] in first
      invariant forall id :: id in first ==>
                  first[id] < i && citations[first[id]] == id && forall j :: 0 <= j < first[id] ==> citations[j] != id
    {
      if citations[i] !in known {
        UnknownIs(citations, ids, i);
        return Err(citations[i]);
      }
      if citations[i] !in first { first := first[citations[i] := i]; }
    }
    UnknownIs(citations, ids, |citations|);
    forall id ensures (if id in first then first[id] else |citations|) == FirstCitation(citations, id) {
      if id in first { FirstCitationIs(citations, id, first[id]); } else { NotCited(citations, id); }
    }
    r := Ok(first);
  }

  method OrderIds(ids: seq<string>, citations: seq<string>, first: map<string, nat>) returns (ordered: seq<string>)
    requires forall id :: (if id in first then first[id] else |citations|) == FirstCitation(citations, id)
    ensures ordered == Ordered(ids, citations) && |ordered| == |ids|
  {
    var none := |citations|;
    var before := (a: string, b: string) =>
      var i, j := (if a in first then first[a] else none), (if b in first then first[b] else none);
      i < j || (i == j && TextLeq(a, b));
    ordered := Sort(ids, before);
    assert |multiset(ordered)| == |multiset(ids)|;
    SameOrderSameSort(ids, before, (a: string, b: string) => Before(citations, a, b));
  }

  /** Numbers of 32 bits, counted from one. */
  method NumberInOrder(ordered: seq<string>) returns (r: Result<Numbers, ReferenceError>)
    ensures r == if |ordered| >= U32 then Err(TooManyEntries) else Ok(NumbersTo(ordered, |ordered|))
  {
    var numbered: Numbers := map[];
    for n: nat := 0 to |ordered|
      invariant n < U32 && numbered == NumbersTo(ordered, n)
    {
      if n + 1 >= U32 { return Err(TooManyEntries); }
      numbered := numbered[ordered[n] := n + 1];
    }
    r := Ok(numbered);
  }

  method NumberBibliography(ids: seq<string>, citations: seq<string>) returns (r: Result<Numbers, ReferenceError>)
    ensures r == Numbering(ids, citations)
  {
    var positions := FirstPositions(ids, citations);
    if positions.Err? { return Err(UnknownCitation(positions.error)); }
    var ordered := OrderIds(ids, citations, positions.value);
    r := NumberInOrder(ordered);
  }

  // ------------------------------------------------------------------ building

  method MissingTexts(b: Book) returns (missing: seq<string>)
    ensures missing == MissingTo(b, |b.entries|)
  {
    var cited := set id | id in b.citations;
    missing := [];
    for k := 0 to |b.entries|
      invariant missing == MissingTo(b, k)
    {
      if b.entries[k].id in cited && !HasText(b.entries[k]) { missing := missing + [b.entries[k].id]; }
    }
  }

  method TextFiles(rules: Rules, b: Book, numbers: Numbers) returns (files: seq<File>)
    ensures files == TextFilesTo(rules, b, numbers, |b.entries|)
  {
    files := [];
    for k := 0 to |b.entries|
      invariant files == TextFilesTo(rules, b, numbers, k)
    {
      var e := b.entries[k];
      if e.fulltext.Some? && e.id in numbers {
        files := files + [File(TextPath(rules, Prefix(rules, b), numbers, e), e.fulltext.value)];
      }
    }
  }

  method NumberedRecords(make: Maker, entries: seq<Entry>, numbers: Numbers)
    returns (r: Result<seq<Record>, ReferenceError>)
    ensures r == RecordsTo(make, entries, numbers, |entries|)
  {
    var records: seq<Record> := [];
    for k := 0 to |entries|
      invariant RecordsTo(make, entries, numbers, k) == Ok(records)
    {
      var e := entries[k];
      var made := make(e, if e.id in numbers then Some(numbers[e.id]) else None);
      if made.Err? {
        ErrorStays(make, entries, numbers, k + 1, |entries|);
        return Err(made.error);
      }
      records := records + [made.value];
    }
    r := Ok(records);
  }

  lemma {:induction false} ErrorStays(make: Maker, entries: seq<Entry>, numbers: Numbers, j: nat, k: nat)
    requires j <= k <= |entries| && RecordsTo(make, entries, numbers, j).Err?
    ensures RecordsTo(make, entries, numbers, k) == RecordsTo(make, entries, numbers, j)
  {
    if j < k { ErrorStays(make, entries, numbers, j, k - 1); }
  }

  /** The full-text check comes before anything is made. */
  method BuildManifest(rules: Rules, b: Book) returns (r: Result<Manifest, ReferenceError>)
    ensures r == Build(rules, b)
    ensures r.Ok? <==> Buildable(b)
    ensures r.Ok? ==> Holds(rules, b, r.value)
  {
    BuildSucceedsIff(rules, b);
    if Buildable(b) { BuildHolds(rules, b); }
    var numbering := NumberBibliography(Ids(b.entries), b.citations);
    if numbering.Err? { return Err(numbering.error); }
    var missing := MissingTexts(b);
    if missing != [] { return Err(MissingFullText(missing)); }
    var records := NumberedRecords(ToRisRecord, b.entries, numbering.value);
    if records.Err? { return Err(records.error); }
    var text := WriteRis(records.value);
    if text.Err? { return Err(Ris(text.error)); }
    var ris := File(RisPath(Prefix(rules, b)), Encode(text.value));
    var texts := TextFiles(rules, b, numbering.value);
    r := Ok(Manifest(ByPath([ris] + texts), numbering.value));
  }

  // ------------------------------------------------------------------ validating

  datatype Finding =
    | BadNumbering(error: ReferenceError)
    | MissingRis(path: string)
    | InvalidRis
    | NoFullText(id: string)
    | MissingRisNumber(id: string)
    | RisNumberMismatch(id: string, expected: nat, actual: nat)
    | MissingFile(path: string)
    | RisMissingId(id: string)
    | DuplicateFilename
    | UnexpectedFile(path: string)

  /** The finding names something that is wrong with this entry. */
  predicate EntryFinding(rules: Rules, b: Book, files: seq<File>, numbers: Numbers, ex: Exported, e: Entry, x: Finding)
    requires e.id in numbers
  {
    match x
    case NoFullText(id) => id == e.id && id in b.citations && (e.fulltext.None? || e.fulltext.value == [])
    case MissingRisNumber(id) => id == e.id && (ex.Exported? ==> id !in ex.numbers)
    case RisNumberMismatch(id, expected, actual) =>
      id == e.id && ex.Exported? && id in ex.numbers && expected == numbers[id] && actual == ex.numbers[id]
      && expected != actual
    case MissingFile(path) =>
      path == TextPath(rules, Prefix(rules, b), numbers, e) && e.id in b.citations
        && forall f <- files :: f.path != path
    case RisMissingId(id) => id == e.id && (ex.Unreadable? || (ex.Exported? && id !in ex.ids))
    case _ => false
  }

  /** What is wrong with one entry. */
  method CheckEntry(rules: Rules, b: Book, files: seq<File>, numbers: Numbers, ex: Exported, e: Entry)
    returns (findings: seq<Finding>)
    requires e.id in numbers
    ensures findings == [] <==> EntryIsGood(rules, b, files, numbers, ex, e)
    ensures forall x :: x in findings <==> EntryFinding(rules, b, files, numbers, ex, e, x)
  {
    findings := [];
    var expected := TextPath(rules, Prefix(rules, b), numbers, e);
    var cited := e.id in b.citations;
    if cited && !HasText(e) { findings := findings + [NoFullText(e.id)]; }
    if !ex.Exported? || e.id !in ex.numbers {
      findings := findings + [MissingRisNumber(e.id)];
    } else if ex.numbers[e.id] != numbers[e.id] {
      findings := findings + [RisNumberMismatch(e.id, numbers[e.id], ex.numbers[e.id])];
    }
    if cited && !HasPath(files, expected) { findings := findings + [MissingFile(expected)]; }
    if !ex.NotText? && (ex.Unreadable? || e.id !in ex.ids) { findings := findings + [RisMissingId(e.id)]; }
  }

  ghost predicate EntriesGoodTo(rules: Rules, b: Book, files: seq<File>, numbers: Numbers, ex: Exported, k: nat)
    requires k <= |b.entries|
  {
    forall i: nat :: i < k && b.entries[i].id in numbers ==> EntryIsGood(rules, b, files, numbers, ex, b.entries[i])
  }

  lemma EntriesGoodNext(rules: Rules, b: Book, files: seq<File>, numbers: Numbers, ex: Exported, k: nat)
    requires k < |b.entries| && b.entries[k].id in numbers
    ensures EntriesGoodTo(rules, b, files, numbers, ex, k + 1) <==>
            EntriesGoodTo(rules, b, files, numbers, ex, k) && EntryIsGood(rules, b, files, numbers, ex, b.entries[k])
  {
  }

  method CheckEntries(rules: Rules, b: Book, files: seq<File>, numbers: Numbers, ex: Exported)
    returns (findings: seq<Finding>)
    requires forall i :: 0 <= i < |b.entries| ==> b.entries[i].id in numbers
    ensures findings == [] <==> EntriesGoodTo(rules, b, files, numbers, ex, |b.entries|)
    ensures forall x :: x in findings <==> EntriesFinding(rules, b, files, numbers, ex, |b.entries|, x)
  {
    findings := [];
    for k: nat := 0 to |b.entries|
      invariant findings == [] <==> EntriesGoodTo(rules, b, files, numbers, ex, k)
      invariant forall x :: x in findings <==> EntriesFinding(rules, b, files, numbers, ex, k, x)
    {
      EntriesGoodNext(rules, b, files, numbers, ex, k);
      var found := CheckEntry(rules, b, files, numbers, ex, b.entries[k]);
      forall x ensures x in findings + found <==> EntriesFinding(rules, b, files, numbers, ex, k + 1, x) {
        NextFinding(rules, b, files, numbers, ex, k, x);
      }
      findings := findings + found;
    }
  }

  /** It is wrong with entry `i`. */
  predicate FindingAt(rules: Rules, b: Book, files: seq<File>, numbers: Numbers, ex: Exported, i: int, x: Finding) {
    0 <= i < |b.entries| && b.entries[i].id in numbers && EntryFinding(rules, b, files, numbers, ex, b.entries[i], x)
  }

  ghost predicate EntriesFinding(rules: Rules, b: Book, files: seq<File>, numbers: Numbers, ex: Exported, k: nat,
                                 x: Finding) {
    exists i :: 0 <= i < k && FindingAt(rules, b, files, numbers, ex, i, x)
  }

  lemma NextFinding(rules: Rules, b: Book, files: seq<File>, numbers: Numbers, ex: Exported, k: nat, x: Finding)
    requires k < |b.entries| && b.entries[k].id in numbers
    ensures EntriesFinding(rules, b, files, numbers, ex, k + 1, x) <==>
            EntriesFinding(rules, b, files, numbers, ex, k, x)
            || EntryFinding(rules, b, files, numbers, ex, b.entries[k], x)
  {
    if EntryFinding(rules, b, files, numbers, ex, b.entries[k], x) {
      assert FindingAt(rules, b, files, numbers, ex, k, x);
    }
    if i :| 0 <= i < k && FindingAt(rules, b, files, numbers, ex, i, x) { assert 0 <= i < k + 1; }
    if i :| 0 <= i < k + 1 && FindingAt(rules, b, files, numbers, ex, i, x) { assert i < k || i == k; }
  }

  ghost predicate FilesGoodTo(files: seq<File>, directory: string, expected: set<string>, k: nat)
    requires k <= |files|
  {
    forall i: nat :: i < k && StartsWith(files[i].path, directory) ==> files[i].path in expected
  }

  /** A file of the full-text directory that belongs to no entry. */
  predicate FileFinding(files: seq<File>, directory: string, expected: set<string>, k: nat, x: Finding)
    requires k <= |files|
  {
    x.UnexpectedFile? && StartsWith(x.path, directory) && x.path !in expected
    && exists i :: 0 <= i < k && files[i].path == x.path
  }

  method CheckFiles(files: seq<File>, directory: string, expected: set<string>) returns (findings: seq<Finding>)
    ensures findings == [] <==> FilesGoodTo(files, directory, expected, |files|)
    ensures forall x :: x in findings <==> FileFinding(files, directory, expected, |files|, x)
  {
    findings := [];
    for k: nat := 0 to |files|
      invariant findings == [] <==> FilesGoodTo(files, directory, expected, k)
      invariant forall x :: x in findings <==> FileFinding(files, directory, expected, k, x)
    {
      if StartsWith(files[k].path, directory) && files[k].path !in expected {
        findings := findings + [UnexpectedFile(files[k].path)];
      }
    }
  }

  /** What the validator reads of a tree: nothing if the file of the references is missing or no text. */
  function ReadTree(rules: Rules, b: Book, files: seq<File>): Exported {
    var ris := FindFile(files, RisPath(Prefix(rules, b)));
    if ris.Some? then ReadExport(rules, ris.value) else NotText
  }

  /** It is wrong with the file of the references, an entry, the names or another file. */
  ghost predicate TreeFinding(rules: Rules, b: Book, files: seq<File>, numbers: Numbers, ex: Exported, x: Finding) {
    var prefix := Prefix(rules, b);
    || (x == MissingRis(RisPath(prefix)) && FindFile(files, RisPath(prefix)).None?)
    || (x == InvalidRis && ex.Unreadable?)
    || EntriesFinding(rules, b, files, numbers, ex, |b.entries|, x)
    || (x == DuplicateFilename && |ExpectedPaths(rules, b, numbers)| != |b.entries|)
    || FileFinding(files, TextDirectory(prefix), ExpectedPaths(rules, b, numbers), |files|, x)
  }

  /** The finding names something that is wrong with the tree. */
  ghost predicate IsFinding(rules: Rules, b: Book, files: seq<File>, x: Finding) {
    match Numbering(Ids(b.entries), b.citations)
    case Err(error) => x == BadNumbering(error)
    case Ok(numbers) => TreeFinding(rules, b, files, numbers, ReadTree(rules, b, files), x)
  }

  /** The validator finds exactly what is wrong, and nothing exactly if the tree is acceptable. */
  method ValidateExport(rules: Rules, b: Book, files: seq<File>) returns (findings: seq<Finding>)
    ensures findings == [] <==> Accepts(rules, b, files)
    ensures forall x :: x in findings <==> IsFinding(rules, b, files, x)
  {
    var numbering := NumberBibliography(Ids(b.entries), b.citations);
    if numbering.Err? { return [BadNumbering(numbering.error)]; }
    var numbers := numbering.value;
    AllNumbered(b, numbers);
    var prefix := Prefix(rules, b);
    var ris := FindFile(files, RisPath(prefix));
    var ex := if ris.Some? then ReadExport(rules, ris.value) else NotText;
    var head := if ris.None? then [MissingRis(RisPath(prefix))] else if ex.Unreadable? then [InvalidRis] else [];
    var entries := CheckEntries(rules, b, files, numbers, ex);
    var expected := ExpectedPaths(rules, b, numbers);
    var names := if |expected| != |b.entries| then [DuplicateFilename] else [];
    var others := CheckFiles(files, TextDirectory(prefix), expected);
    AcceptsByParts(rules, b, files, numbers, ex);
    findings := head + entries + names + others;
    FindingsByParts(rules, b, files, numbers, ex, head, entries, names, others);
  }

  /** What is wrong with the file of the references, with the entries, with the names and with other files. */
  lemma {:induction false} FindingsByParts(
    rules: Rules, b: Book, files: seq<File>, numbers: Numbers, ex: Exported,
    head: seq<Finding>, entries: seq<Finding>, names: seq<Finding>, others: seq<Finding>)
    requires ex == ReadTree(rules, b, files)
    requires var path := RisPath(Prefix(rules, b));
             head == if FindFile(files, path).None? then [MissingRis(path)]
                     else if ex.Unreadable? then [InvalidRis] else []
    requires forall x :: x in entries <==> EntriesFinding(rules, b, files, numbers, ex, |b.entries|, x)
    requires names == if |ExpectedPaths(rules, b, numbers)| != |b.entries| then [DuplicateFilename] else []
    requires forall x :: x in others <==>
               FileFinding(files, TextDirectory(Prefix(rules, b)), ExpectedPaths(rules, b, numbers), |files|, x)
    ensures forall x :: x in head + entries + names + others <==> TreeFinding(rules, b, files, numbers, ex, x)
  {
  }

  lemma AllNumbered(b: Book, numbers: Numbers)
    requires Numbering(Ids(b.entries), b.citations) == Ok(numbers)
    ensures forall i :: 0 <= i < |b.entries| ==> b.entries[i].id in numbers
  {
    var ids := Ids(b.entries);
    forall i | 0 <= i < |b.entries| ensures b.entries[i].id in numbers {
      assert ids[i] in ids;
      NumberedExactly(ids, b.citations, ids[i]);
    }
  }

  lemma AcceptsByParts(rules: Rules, b: Book, files: seq<File>, numbers: Numbers, ex: Exported)
    requires Numbering(Ids(b.entries), b.citations) == Ok(numbers)
    requires var ris := FindFile(files, RisPath(Prefix(rules, b)));
             ex == if ris.Some? then ReadExport(rules, ris.value) else NotText
    ensures Accepts(rules, b, files) <==>
            && FindFile(files, RisPath(Prefix(rules, b))).Some? && !ex.Unreadable?
            && EntriesGoodTo(rules, b, files, numbers, ex, |b.entries|)
            && |ExpectedPaths(rules, b, numbers)| == |b.entries|
            && FilesGoodTo(files, TextDirectory(Prefix(rules, b)), ExpectedPaths(rules, b, numbers), |files|)
  {
    EntriesAsSet(rules, b, files, numbers, ex);
    FilesAsSet(files, TextDirectory(Prefix(rules, b)), ExpectedPaths(rules, b, numbers));
  }

  lemma EntriesAsSet(rules: Rules, b: Book, files: seq<File>, numbers: Numbers, ex: Exported)
    ensures EntriesGoodTo(rules, b, files, numbers, ex, |b.entries|) <==>
            forall e <- b.entries :: e.id in numbers ==> EntryIsGood(rules, b, files, numbers, ex, e)
  {
    assert forall i: nat :: i < |b.entries| ==> b.entries[i] in b.entries;
  }

  lemma FilesAsSet(files: seq<File>, directory: string, expected: set<string>)
    ensures FilesGoodTo(files, directory, expected, |files|) <==>
            forall f <- files :: StartsWith(f.path, directory) ==> f.path in expected
  {
    assert forall i: nat :: i < |files| ==> files[i] in files;
  }
}
