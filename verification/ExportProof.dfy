/** Every tree the builder returns passes the validator. */
module ExportProof {
  import opened Wrappers
  import opened Binary
  import opened Utf8
  import opened Files
  import opened Sorting
  import opened RisText
  import opened RisRoundTrip
  import opened Decimals
  import opened Bibliography
  import opened RisExport
  import opened ExportTree

  /** The ids are distinct and well formed, and foreign tags are those an import retains. */
  ghost predicate ImportedBook(b: Book) {
    Distinct(Ids(b.entries))
    && forall i :: 0 <= i < |b.entries| ==> ForeignTags(b.entries[i].unknown) && IdOk(b.entries[i].id)
  }

  /** Every id is on one line and has no blanks around it. */
  ghost predicate PlainIds(b: Book) { forall i :: 0 <= i < |b.entries| ==> Plain(b.entries[i].id) }

  // ------------------------------------------------------------------ names

  function FirstUnderscore(s: string): (r: nat)
    ensures r <= |s|
  {
    if s == [] || s[0] == '_' then 0 else 1 + FirstUnderscore(s[1..])
  }

  lemma {:induction false} UnderscoreAfter(s: string, rest: string)
    requires '_' !in s && rest != [] && rest[0] == '_'
    ensures FirstUnderscore(s + rest) == |s|
  {
    if s == [] {
      assert s + rest == rest;
    } else {
      assert (s + rest)[1..] == s[1..] + rest;
      UnderscoreAfter(s[1..], rest);
    }
  }

  lemma SameHead(m: nat, x: string, n: nat, y: string)
    requires Decimal(m) + ("_" + x) == Decimal(n) + ("_" + y)
    ensures m == n
  {
    DecimalDigits(m);
    DecimalDigits(n);
    assert '_' !in Decimal(m) && '_' !in Decimal(n);
    UnderscoreAfter(Decimal(m), "_" + x);
    UnderscoreAfter(Decimal(n), "_" + y);
    var s := Decimal(m) + ("_" + x);
    assert Decimal(m) == s[..|Decimal(m)|] && Decimal(n) == s[..|Decimal(n)|];
    DecimalInjective(m, n);
  }

  /** Full texts with different numbers have different names, whatever their authors and years. */
  lemma NamesDiffer(rules: Rules, m: nat, x: Metadata, n: nat, y: Metadata)
    requires m != n
    ensures FileName(rules, m, x) != FileName(rules, n, y)
  {
    var rx := rules.component(FirstAuthor(x), "UnknownAuthor") + "_" + YearName(x.year) + ".pdf";
    var ry := rules.component(FirstAuthor(y), "UnknownAuthor") + "_" + YearName(y.year) + ".pdf";
    assert Decimal(m) + ("_" + rx) == FileName(rules, m, x) && Decimal(n) + ("_" + ry) == FileName(rules, n, y);
    if Decimal(m) + ("_" + rx) == Decimal(n) + ("_" + ry) { SameHead(m, rx, n, ry); }
  }

  lemma SameTail(prefix: string, a: string, b: string)
    requires a != b
    ensures prefix + a != prefix + b
  {
    assert (prefix + a)[|prefix|..] == a && (prefix + b)[|prefix|..] == b;
  }

  lemma RisIsNoText(prefix: string, name: string)
    ensures RisPath(prefix) != TextDirectory(prefix) + name
    ensures !StartsWith(RisPath(prefix), TextDirectory(prefix))
  {
    var k := |prefix| + 1;
    assert RisPath(prefix)[k] == 'r';
    assert (TextDirectory(prefix) + name)[k] == 'f';
    assert TextDirectory(prefix)[k] == 'f';
    assert RisPath(prefix)[..|TextDirectory(prefix)|][k] == 'r';
  }

  lemma {:induction false} SetOfDistinct<T>(s: seq<T>)
    requires Distinct(s)
    ensures |set x | x in s| == |s|
  {
    if s != [] {
      var init, last := s[..|s| - 1], s[|s| - 1];
      assert s == init + [last];
      SetOfDistinct(init);
      assert last !in init;
      assert (set x | x in s) == (set x | x in init) + {last};
    } else {
      assert (set x | x in s) == {};
    }
  }

  // ------------------------------------------------------------------ the expected paths

  /** The numbers of a book; every entry has one and no two share one. */
  ghost predicate NumbersFor(b: Book, numbers: Numbers) {
    Numbering(Ids(b.entries), b.citations) == Ok(numbers)
  }

  lemma EntryNumber(b: Book, numbers: Numbers, i: nat)
    requires ImportedBook(b) && NumbersFor(b, numbers) && i < |b.entries|
    ensures b.entries[i].id in numbers && 1 <= numbers[b.entries[i].id] < U32
  {
    var ids := Ids(b.entries);
    assert ids[i] in ids;
    var place := PlaceOf(ids, b.citations, ids[i]);
  }

  lemma NumbersDiffer(b: Book, numbers: Numbers, i: nat, j: nat)
    requires ImportedBook(b) && NumbersFor(b, numbers) && i < j < |b.entries|
    ensures b.entries[i].id in numbers && b.entries[j].id in numbers
    ensures numbers[b.entries[i].id] != numbers[b.entries[j].id]
  {
    var ids := Ids(b.entries);
    assert ids[i] in ids && ids[j] in ids && ids[i] != ids[j];
    SameNumberSameId(ids, b.citations, ids[i], ids[j]);
  }

  ghost function Paths(rules: Rules, b: Book, numbers: Numbers): (r: seq<string>)
    requires forall i :: 0 <= i < |b.entries| ==> b.entries[i].id in numbers
    ensures |r| == |b.entries|
  {
    seq(|b.entries|, i requires 0 <= i < |b.entries| => TextPath(rules, Prefix(rules, b), numbers, b.entries[i]))
  }

  lemma PathsDiffer(rules: Rules, b: Book, numbers: Numbers, i: nat, j: nat)
    requires ImportedBook(b) && NumbersFor(b, numbers) && i < j < |b.entries|
    ensures b.entries[i].id in numbers && b.entries[j].id in numbers
    ensures TextPath(rules, Prefix(rules, b), numbers, b.entries[i])
            != TextPath(rules, Prefix(rules, b), numbers, b.entries[j])
  {
    var x, y := b.entries[i], b.entries[j];
    NumbersDiffer(b, numbers, i, j);
    NamesDiffer(rules, numbers[x.id], x.metadata, numbers[y.id], y.metadata);
    SameTail(TextDirectory(Prefix(rules, b)),
             FileName(rules, numbers[x.id], x.metadata), FileName(rules, numbers[y.id], y.metadata));
  }

  lemma ExpectedArePaths(rules: Rules, b: Book, numbers: Numbers)
    requires forall i :: 0 <= i < |b.entries| ==> b.entries[i].id in numbers
    ensures ExpectedPaths(rules, b, numbers) == (set x | x in Paths(rules, b, numbers))
  {
    var paths := Paths(rules, b, numbers);
    forall i: nat | i < |paths|
      ensures paths[i] in ExpectedPaths(rules, b, numbers) { assert b.entries[i] in b.entries; }
    forall e | e in b.entries && e.id in numbers ensures TextPath(rules, Prefix(rules, b), numbers, e) in paths {
      var i :| 0 <= i < |b.entries| && b.entries[i] == e;
      assert paths[i] == TextPath(rules, Prefix(rules, b), numbers, e);
    }
  }

  /** No two entries are expected under the same path. */
  lemma PathsAreAsManyAsEntries(rules: Rules, b: Book, numbers: Numbers)
    requires ImportedBook(b) && NumbersFor(b, numbers)
    ensures |ExpectedPaths(rules, b, numbers)| == |b.entries|
  {
    forall i: nat | i < |b.entries| ensures b.entries[i].id in numbers { EntryNumber(b, numbers, i); }
    var paths := Paths(rules, b, numbers);
    forall i, j | 0 <= i < j < |paths| ensures paths[i] != paths[j] { PathsDiffer(rules, b, numbers, i, j); }
    SetOfDistinct(paths);
    ExpectedArePaths(rules, b, numbers);
  }

  // ------------------------------------------------------------------ the records

  ghost predicate IsRecord(record: Record, e: Entry, numbers: Numbers) {
    e.id in numbers && record == RecordOf(e, Some(numbers[e.id]))
  }

  /** The records of the first entries, numbered. */
  ghost predicate RecordsFor(entries: seq<Entry>, numbers: Numbers, records: seq<Record>) {
    |records| <= |entries|
    && forall i: nat {:trigger IsRecord(records[i], entries[i], numbers)} :: i < |records| ==>
         IsRecord(records[i], entries[i], numbers)
  }

  ghost predicate Made(make: Maker, record: Record, e: Entry, numbers: Numbers) {
    e.id in numbers && make(e, Some(numbers[e.id])) == Ok(record)
  }

  ghost predicate AllMade(make: Maker, entries: seq<Entry>, numbers: Numbers, records: seq<Record>) {
    |records| <= |entries|
    && forall i: nat {:trigger Made(make, records[i], entries[i], numbers)} :: i < |records| ==>
         Made(make, records[i], entries[i], numbers)
  }

  lemma OneMoreMade(make: Maker, entries: seq<Entry>, numbers: Numbers, records: seq<Record>, record: Record)
    requires AllMade(make, entries, numbers, records) && |records| < |entries|
    requires Made(make, record, entries[|records|], numbers)
    ensures AllMade(make, entries, numbers, records + [record])
  {
    forall i: nat | i < |records| + 1 ensures Made(make, (records + [record])[i], entries[i], numbers) {
      assert i < |records| ==> Made(make, records[i], entries[i], numbers);
    }
  }

  lemma {:induction false} RecordsAreMade(make: Maker, entries: seq<Entry>, numbers: Numbers, k: nat)
    requires k <= |entries| && RecordsTo(make, entries, numbers, k).Ok?
    requires forall i :: 0 <= i < |entries| ==> entries[i].id in numbers
    ensures var records := RecordsTo(make, entries, numbers, k).value;
            |records| == k && AllMade(make, entries, numbers, records)
  {
    if k > 0 {
      RecordsAreMade(make, entries, numbers, k - 1);
      var e := entries[k - 1];
      var record := make(e, Some(numbers[e.id])).value;
      assert Made(make, record, e, numbers);
      OneMoreMade(make, entries, numbers, RecordsTo(make, entries, numbers, k - 1).value, record);
    }
  }

  lemma MadeIsRecord(record: Record, e: Entry, numbers: Numbers)
    requires Made(ToRisRecord, record, e, numbers)
    ensures IsRecord(record, e, numbers)
  {
  }

  lemma BuiltRecords(entries: seq<Entry>, numbers: Numbers)
    requires RecordsTo(ToRisRecord, entries, numbers, |entries|).Ok?
    requires forall i :: 0 <= i < |entries| ==> entries[i].id in numbers
    ensures var records := RecordsTo(ToRisRecord, entries, numbers, |entries|).value;
            |records| == |entries| && RecordsFor(entries, numbers, records)
  {
    RecordsAreMade(ToRisRecord, entries, numbers, |entries|);
    var records := RecordsTo(ToRisRecord, entries, numbers, |entries|).value;
    forall i: nat | i < |records| ensures IsRecord(records[i], entries[i], numbers) {
      assert Made(ToRisRecord, records[i], entries[i], numbers);
      MadeIsRecord(records[i], entries[i], numbers);
    }
  }

  lemma RecordsAreReadBack(b: Book, numbers: Numbers, records: seq<Record>)
    requires ImportedBook(b) && RecordsFor(b.entries, numbers, records)
    ensures WriteAll(records).Ok? && Parse(WriteAll(records).value) == Ok(Normals(records))
  {
    forall i: nat | i < |records|
      ensures CapitalTags(records[i]) && HasType(records[i]) && StartsWithType(records[i])
    {
      assert IsRecord(records[i], b.entries[i], numbers);
      RecordIsCapital(b.entries[i], numbers[b.entries[i].id]);
      RecordStartsWithType(b.entries[i], numbers[b.entries[i].id]);
    }
    ParseWritten(records);
  }

  /** What is read of the record of an entry. */
  lemma NormalOfEntry(rules: Rules, e: Entry, n: nat, index: nat)
    requires ForeignTags(e.unknown) && Plain(e.id) && IdOk(e.id) && n < U32
    ensures var r := Normal(RecordOf(e, Some(n)));
            ImportedId(rules, r, index) == Ok(e.id)
            && Find(r, "AN") == Some(e.id) && Find(r, "RN") == Some(Decimal(n)) && ParseU32(Decimal(n)) == Some(n)
  {
    RecordReadsBack(e, n);
    PlainStays(e.id);
    RecordHasTitle(e, n);
    DecimalRoundTrip(n);
  }

  /** A read record tells the id and the number of an entry. */
  ghost predicate Tells(rules: Rules, r: Record, index: nat, id: string, n: nat) {
    ImportedId(rules, r, index) == Ok(id) && Find(r, "AN") == Some(id)
    && Find(r, "RN").Some? && ParseU32(Find(r, "RN").value) == Some(n)
  }

  ghost predicate AllTell(rules: Rules, read: seq<Record>, ids: seq<string>, numbers: Numbers) {
    |read| == |ids| && forall i: nat {:trigger ids[i]} :: i < |ids| ==>
      ids[i] in numbers && Tells(rules, read[i], i, ids[i], numbers[ids[i]])
  }

  lemma {:induction false} IdsAreRead(importId: Importer, read: seq<Record>, ids: seq<string>, k: nat)
    requires k <= |ids| == |read| && forall i: nat :: i < |ids| ==> importId(read[i], i) == Ok(ids[i])
    ensures ImportedIdsTo(importId, read, k).Ok?
    ensures forall i: nat :: i < k ==> ids[i] in ImportedIdsTo(importId, read, k).value
  {
    if k > 0 { IdsAreRead(importId, read, ids, k - 1); }
  }

  lemma {:induction false} NumbersAreRead(rules: Rules, read: seq<Record>, ids: seq<string>, numbers: Numbers, k: nat)
    requires AllTell(rules, read, ids, numbers) && k <= |ids|
    ensures forall i: nat :: i < k ==>
              ids[i] in RisNumbersTo(read, k) && RisNumbersTo(read, k)[ids[i]] == numbers[ids[i]]
  {
    if k > 0 {
      NumbersAreRead(rules, read, ids, numbers, k - 1);
      assert Tells(rules, read[k - 1], k - 1, ids[k - 1], numbers[ids[k - 1]]);
    }
  }

  lemma RecordsTell(rules: Rules, b: Book, numbers: Numbers, records: seq<Record>)
    requires ImportedBook(b) && PlainIds(b) && NumbersFor(b, numbers) && RecordsFor(b.entries, numbers, records)
             && |records| == |b.entries|
    ensures AllTell(rules, Normals(records), Ids(b.entries), numbers)
  {
    forall i: nat | i < |b.entries|
      ensures b.entries[i].id in numbers
              && Tells(rules, Normals(records)[i], i, b.entries[i].id, numbers[b.entries[i].id])
    {
      EntryNumber(b, numbers, i);
      assert IsRecord(records[i], b.entries[i], numbers);
      NormalOfEntry(rules, b.entries[i], numbers[b.entries[i].id], i);
    }
  }

  /** The id was read from the exported text with the number it has. */
  predicate ReadWithNumber(ex: Exported, numbers: Numbers, id: string)
    requires ex.Exported?
  {
    id in ex.ids && id in ex.numbers && id in numbers && ex.numbers[id] == numbers[id]
  }

  /** The validator reads from the exported text every id with its number. */
  lemma ExportIsRead(rules: Rules, b: Book, numbers: Numbers, records: seq<Record>)
    requires ImportedBook(b) && PlainIds(b) && NumbersFor(b, numbers) && RecordsFor(b.entries, numbers, records)
             && |records| == |b.entries|
    ensures WriteAll(records).Ok?
    ensures var ex := ReadExport(rules, Encode(WriteAll(records).value));
            ex.Exported? && forall i: nat :: i < |b.entries| ==>
              ReadWithNumber(ex, numbers, b.entries[i].id)
  {
    RecordsAreReadBack(b, numbers, records);
    DecodeEncode(WriteAll(records).value);
    RecordsTell(rules, b, numbers, records);
    var ids := Ids(b.entries);
    forall i: nat | i < |ids| ensures ImporterOf(rules)(Normals(records)[i], i) == Ok(ids[i]) {
      assert Tells(rules, Normals(records)[i], i, ids[i], numbers[ids[i]]);
    }
    IdsAreRead(ImporterOf(rules), Normals(records), ids, |ids|);
    NumbersAreRead(rules, Normals(records), ids, numbers, |ids|);
    forall i: nat | i < |b.entries| ensures b.entries[i].id in numbers { EntryNumber(b, numbers, i); }
    assert forall i: nat :: i < |ids| ==> ids[i] == b.entries[i].id;
  }

  // ------------------------------------------------------------------ the files

  /** A file of the tree that holds the full text of an entry, under the path of the entry. */
  ghost predicate IsTextOf(rules: Rules, b: Book, numbers: Numbers, f: File, i: nat) {
    && i < |b.entries| && b.entries[i].id in numbers
    && f.path == TextPath(rules, Prefix(rules, b), numbers, b.entries[i])
    && b.entries[i].fulltext == Some(f.contents)
  }

  lemma {:induction false} TextFilesAreTexts(rules: Rules, b: Book, numbers: Numbers, k: nat, f: File) returns (i: nat)
    requires k <= |b.entries| && f in TextFilesTo(rules, b, numbers, k)
    ensures IsTextOf(rules, b, numbers, f, i)
  {
    if f in TextFilesTo(rules, b, numbers, k - 1) {
      i := TextFilesAreTexts(rules, b, numbers, k - 1, f);
    } else {
      i := k - 1;
    }
  }

  lemma {:induction false} TextsAreFiles(rules: Rules, b: Book, numbers: Numbers, k: nat, i: nat) returns (f: File)
    requires i < k <= |b.entries| && b.entries[i].id in numbers && b.entries[i].fulltext.Some?
    ensures f in TextFilesTo(rules, b, numbers, k) && IsTextOf(rules, b, numbers, f, i)
    ensures f == File(TextPath(rules, Prefix(rules, b), numbers, b.entries[i]), b.entries[i].fulltext.value)
  {
    var before := TextFilesTo(rules, b, numbers, k - 1);
    if i == k - 1 {
      f := File(TextPath(rules, Prefix(rules, b), numbers, b.entries[i]), b.entries[i].fulltext.value);
      assert TextFilesTo(rules, b, numbers, k) == before + [f];
    } else {
      f := TextsAreFiles(rules, b, numbers, k - 1, i);
      assert f in before;
    }
  }

  lemma {:induction false} NoneMissing(b: Book, k: nat, i: nat)
    requires i < k <= |b.entries| && MissingTo(b, k) == [] && b.entries[i].id in b.citations
    ensures HasText(b.entries[i])
  {
    if i < k - 1 { NoneMissing(b, k - 1, i); }
  }

  /** The one file under a path is found, wherever it stands. */
  lemma {:induction false} FileIsFound(files: seq<File>, file: File)
    requires file in files && forall f <- files :: f.path == file.path ==> f == file
    ensures FindFile(files, file.path) == Some(file.contents)
  {
    assert files[0] in files && forall f <- files[1..] :: f in files;
    if files[0].path != file.path { FileIsFound(files[1..], file); }
  }

  /** The files of a build, in any order. */
  ghost predicate TreeOf(rules: Rules, b: Book, numbers: Numbers, ris: File, files: seq<File>) {
    ris.path == RisPath(Prefix(rules, b))
    && forall f :: f in files <==> f == ris || f in TextFilesTo(rules, b, numbers, |b.entries|)
  }

  lemma SortedTree(rules: Rules, b: Book, numbers: Numbers, ris: File)
    requires ris.path == RisPath(Prefix(rules, b))
    ensures TreeOf(rules, b, numbers, ris, ByPath([ris] + TextFilesTo(rules, b, numbers, |b.entries|)))
  {
    var all := [ris] + TextFilesTo(rules, b, numbers, |b.entries|);
    forall f ensures f in ByPath(all) <==> f in all { SameElements(ByPath(all), all, f); }
  }

  lemma RisIsFound(rules: Rules, b: Book, numbers: Numbers, ris: File, files: seq<File>)
    requires TreeOf(rules, b, numbers, ris, files)
    ensures FindFile(files, RisPath(Prefix(rules, b))) == Some(ris.contents)
  {
    forall f <- files | f.path == ris.path ensures f == ris {
      if f in TextFilesTo(rules, b, numbers, |b.entries|) {
        var i := TextFilesAreTexts(rules, b, numbers, |b.entries|, f);
        RisIsNoText(Prefix(rules, b), FileName(rules, numbers[b.entries[i].id], b.entries[i].metadata));
      }
    }
    FileIsFound(files, ris);
  }

  lemma TextsAreExpected(rules: Rules, b: Book, numbers: Numbers, ris: File, files: seq<File>, f: File)
    requires TreeOf(rules, b, numbers, ris, files) && f in files && StartsWith(f.path, TextDirectory(Prefix(rules, b)))
    ensures f.path in ExpectedPaths(rules, b, numbers)
  {
    RisIsNoText(Prefix(rules, b), "");
    var i := TextFilesAreTexts(rules, b, numbers, |b.entries|, f);
    assert b.entries[i] in b.entries;
  }

  lemma CitedIsThere(rules: Rules, b: Book, numbers: Numbers, ris: File, files: seq<File>, i: nat)
    requires TreeOf(rules, b, numbers, ris, files) && MissingTo(b, |b.entries|) == []
    requires i < |b.entries| && b.entries[i].id in numbers && b.entries[i].id in b.citations
    ensures HasText(b.entries[i]) && HasPath(files, TextPath(rules, Prefix(rules, b), numbers, b.entries[i]))
  {
    NoneMissing(b, |b.entries|, i);
    var f := TextsAreFiles(rules, b, numbers, |b.entries|, i);
    assert f in files;
  }

  // ------------------------------------------------------------------ the tree passes

  lemma EntriesAreGood(rules: Rules, b: Book, numbers: Numbers, ris: File, files: seq<File>, ex: Exported, i: nat)
    requires TreeOf(rules, b, numbers, ris, files) && MissingTo(b, |b.entries|) == [] && i < |b.entries|
    requires ex.Exported? && ReadWithNumber(ex, numbers, b.entries[i].id)
    ensures EntryIsGood(rules, b, files, numbers, ex, b.entries[i])
  {
    if b.entries[i].id in b.citations { CitedIsThere(rules, b, numbers, ris, files, i); }
  }

  lemma TreePasses(rules: Rules, b: Book, numbers: Numbers, ris: File, files: seq<File>, ex: Exported)
    requires ImportedBook(b) && NumbersFor(b, numbers) && TreeOf(rules, b, numbers, ris, files)
    requires MissingTo(b, |b.entries|) == [] && ReadExport(rules, ris.contents) == ex && ex.Exported?
    requires forall i: nat :: i < |b.entries| ==>
               ReadWithNumber(ex, numbers, b.entries[i].id)
    ensures Accepts(rules, b, files)
  {
    RisIsFound(rules, b, numbers, ris, files);
    PathsAreAsManyAsEntries(rules, b, numbers);
    forall e <- b.entries | e.id in numbers ensures EntryIsGood(rules, b, files, numbers, ex, e) {
      var i :| 0 <= i < |b.entries| && b.entries[i] == e;
      EntriesAreGood(rules, b, numbers, ris, files, ex, i);
    }
    forall f <- files | StartsWith(f.path, TextDirectory(Prefix(rules, b)))
      ensures f.path in ExpectedPaths(rules, b, numbers) {
      TextsAreExpected(rules, b, numbers, ris, files, f);
    }
  }

  lemma PlainIsAccepted(rules: Rules, b: Book)
    requires ImportedBook(b) && PlainIds(b) && Build(rules, b).Ok?
    ensures Accepts(rules, b, Build(rules, b).value.files)
  {
    var numbers := Numbering(Ids(b.entries), b.citations).value;
    forall i: nat | i < |b.entries| ensures b.entries[i].id in numbers { EntryNumber(b, numbers, i); }
    var records := RecordsTo(ToRisRecord, b.entries, numbers, |b.entries|).value;
    BuiltRecords(b.entries, numbers);
    ExportIsRead(rules, b, numbers, records);
    var ris := File(RisPath(Prefix(rules, b)), Encode(WriteAll(records).value));
    SortedTree(rules, b, numbers, ris);
    TreePasses(rules, b, numbers, ris, Build(rules, b).value.files, ReadExport(rules, ris.contents));
  }

  // ------------------------------------------------------------------ ids that do not survive

  /** The accession number of a read record, if it has one, is plain. */
  ghost predicate PlainKey(r: Record) { Find(r, "AN").Some? ==> Plain(Find(r, "AN").value) }

  /** Every id the validator reads is plain, so no other id can be among them. */
  lemma {:induction false} ReadIdsArePlain(read: seq<Record>, k: nat, id: string)
    requires k <= |read| && forall i :: 0 <= i < |read| ==> PlainKey(read[i])
    requires id in RisNumbersTo(read, k)
    ensures Plain(id)
  {
    NewNumber(read, k, id);
    assert PlainKey(read[k - 1]);
    if id in RisNumbersTo(read, k - 1) { ReadIdsArePlain(read, k - 1, id); }
  }

  lemma NewNumber(read: seq<Record>, k: nat, id: string)
    requires 0 < k <= |read| && id in RisNumbersTo(read, k)
    ensures id in RisNumbersTo(read, k - 1) || Find(read[k - 1], "AN") == Some(id)
  {
  }

  lemma ReadIdIsPlain(b: Book, numbers: Numbers, records: seq<Record>, i: nat)
    requires ImportedBook(b) && RecordsFor(b.entries, numbers, records) && i < |records|
    ensures PlainKey(Normals(records)[i])
  {
    assert IsRecord(records[i], b.entries[i], numbers);
    RecordReadsBack(b.entries[i], numbers[b.entries[i].id]);
    CleanIsPlain(b.entries[i].id);
  }

  lemma ReadNumbers(rules: Rules, text: string, read: seq<Record>)
    requires Parse(text) == Ok(read)
    ensures var ex := ReadExport(rules, Encode(text)); ex.Exported? ==> ex.numbers == RisNumbersTo(read, |read|)
  {
    DecodeEncode(text);
  }

  lemma TreeFails(rules: Rules, b: Book, numbers: Numbers, ris: File, files: seq<File>, i: nat)
    requires NumbersFor(b, numbers) && TreeOf(rules, b, numbers, ris, files) && i < |b.entries|
             && b.entries[i].id in numbers
    requires var ex := ReadExport(rules, ris.contents); ex.Exported? ==> b.entries[i].id !in ex.numbers
    ensures !Accepts(rules, b, files)
  {
    RisIsFound(rules, b, numbers, ris, files);
    assert b.entries[i] in b.entries;
  }

  lemma UnplainIsRefused(rules: Rules, b: Book, i: nat)
    requires ImportedBook(b) && Build(rules, b).Ok? && i < |b.entries| && !Plain(b.entries[i].id)
    ensures !Accepts(rules, b, Build(rules, b).value.files)
  {
    var numbers := Numbering(Ids(b.entries), b.citations).value;
    forall i: nat | i < |b.entries| ensures b.entries[i].id in numbers { EntryNumber(b, numbers, i); }
    var records := RecordsTo(ToRisRecord, b.entries, numbers, |b.entries|).value;
    BuiltRecords(b.entries, numbers);
    RecordsAreReadBack(b, numbers, records);
    var text := WriteAll(records).value;
    ReadNumbers(rules, text, Normals(records));
    NotAmongRead(rules, b, numbers, records, i);
    var ris := File(RisPath(Prefix(rules, b)), Encode(text));
    SortedTree(rules, b, numbers, ris);
    TreeFails(rules, b, numbers, ris, Build(rules, b).value.files, i);
  }

  lemma NotAmongRead(rules: Rules, b: Book, numbers: Numbers, records: seq<Record>, i: nat)
    requires ImportedBook(b) && RecordsFor(b.entries, numbers, records) && i < |b.entries| && !Plain(b.entries[i].id)
    ensures b.entries[i].id !in RisNumbersTo(Normals(records), |records|)
  {
    var read := Normals(records);
    forall j | 0 <= j < |read| ensures PlainKey(read[j]) { ReadIdIsPlain(b, numbers, records, j); }
    if b.entries[i].id in RisNumbersTo(read, |read|) { ReadIdsArePlain(read, |read|, b.entries[i].id); }
  }

  /**
    The validator accepts the tree the builder returns exactly if every reference id is on
    one line without blanks around it; an id that is not cannot be read back.
   */
  lemma BuildIsAcceptedIff(rules: Rules, b: Book)
    requires ImportedBook(b) && Build(rules, b).Ok?
    ensures Accepts(rules, b, Build(rules, b).value.files) <==> PlainIds(b)
  {
    if PlainIds(b) {
      PlainIsAccepted(rules, b);
    } else {
      var i :| 0 <= i < |b.entries| && !Plain(b.entries[i].id);
      UnplainIsRefused(rules, b, i);
    }
  }

  // ------------------------------------------------------------------ a tree that is refused

  const NoMetadata: Metadata :=
    Metadata("t", [], None, None, None, None, None, None, None, None, None, None, [], None, None)

  /** One uncited reference whose id begins with a blank. */
  function BlankBook(): Book { Book("d", [Entry(" a", NoMetadata, [], None, [])], []) }

  lemma BlankIsNotPlain()
    ensures !Plain(" a")
  {
    assert " a"[1..] == "a";
  }

  lemma TitleIsThere()
    ensures Trim("t") == "t"
  {
  }

  lemma OneRecord(e: Entry, numbers: Numbers)
    requires Trim(e.metadata.title) != []
    ensures RecordsTo(ToRisRecord, [e], numbers, 1).Ok? && WriteAll(RecordsTo(ToRisRecord, [e], numbers, 1).value).Ok?
  {
    var number := if e.id in numbers then Some(numbers[e.id]) else None;
    var record := RecordOf(e, number);
    RecordHasType(e, number);
    assert RecordsTo(ToRisRecord, [e], numbers, 0) == Ok([]) && ToRisRecord(e, number) == Ok(record);
    assert RecordsTo(ToRisRecord, [e], numbers, 1) == Ok([record]) by { assert [] + [record] == [record]; }
  }

  lemma RecordHasType(e: Entry, number: Option<nat>)
    ensures HasType(RecordOf(e, number))
  {
    var record := RecordOf(e, number);
    assert record[0].tag == "TY" && record[0] in record;
  }

  lemma BlankBookBuilds(rules: Rules)
    ensures ImportedBook(BlankBook()) && Build(rules, BlankBook()).Ok?
  {
    var b := BlankBook();
    TitleIsThere();
    OneRecord(b.entries[0], Numbering(Ids(b.entries), []).value);
    assert MissingTo(b, 1) == [] by { assert MissingTo(b, 0) == []; }
  }

  /** The builder makes a tree of it, and the validator refuses that tree. */
  lemma BlankBookIsRefused(rules: Rules)
    ensures Build(rules, BlankBook()).Ok? && !Accepts(rules, BlankBook(), Build(rules, BlankBook()).value.files)
  {
    BlankBookBuilds(rules);
    BlankIsNotPlain();
    BuildIsAcceptedIff(rules, BlankBook());
    assert !Plain(BlankBook().entries[0].id);
  }
}
