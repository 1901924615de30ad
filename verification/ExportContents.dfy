/** What a build of the export contains, and when there is one. */
module ExportContents {
  import opened Wrappers
  import opened Binary
  import opened Utf8
  import opened Files
  import opened Sorting
  import opened Occurrence
  import opened RisText
  import opened Decimals
  import opened Bibliography
  import opened RisExport
  import opened ExportTree
  import opened ExportProof

  // ------------------------------------------------------------------ when a build succeeds

  /** A cited reference without a usable full text. */
  predicate LacksText(b: Book, e: Entry) { e.id in b.citations && !HasText(e) }

  /** The refusal names exactly the cited references without a full text. */
  lemma {:induction false} MissingAre(b: Book, k: nat, id: string)
    requires k <= |b.entries|
    ensures id in MissingTo(b, k) <==> exists i :: 0 <= i < k && LacksText(b, b.entries[i]) && b.entries[i].id == id
  {
    if k > 0 { MissingAre(b, k - 1, id); }
  }

  lemma {:induction false} MissingNone(b: Book, k: nat)
    requires k <= |b.entries|
    ensures MissingTo(b, k) == [] <==> forall i :: 0 <= i < k ==> !LacksText(b, b.entries[i])
  {
    if k > 0 { MissingNone(b, k - 1); }
  }

  lemma {:induction false} AllKnown(citations: seq<string>, ids: seq<string>)
    ensures UnknownIn(citations, ids) == None <==> forall c <- citations :: c in ids
  {
    if citations != [] {
      AllKnown(citations[1..], ids);
      assert citations == [citations[0]] + citations[1..];
    }
  }

  predicate Makes(make: Maker, e: Entry, numbers: Numbers) {
    make(e, if e.id in numbers then Some(numbers[e.id]) else None).Ok?
  }

  lemma {:induction false} AllMade(make: Maker, entries: seq<Entry>, numbers: Numbers, k: nat)
    requires k <= |entries|
    ensures RecordsTo(make, entries, numbers, k).Ok? <==> forall i :: 0 <= i < k ==> Makes(make, entries[i], numbers)
  {
    if k > 0 { AllMade(make, entries, numbers, k - 1); }
  }

  lemma TitlesMakeRecords(entries: seq<Entry>, numbers: Numbers)
    ensures RecordsTo(ToRisRecord, entries, numbers, |entries|).Ok? <==>
            forall i :: 0 <= i < |entries| ==> Trim(entries[i].metadata.title) != []
  {
    AllMade(ToRisRecord, entries, numbers, |entries|);
    forall i | 0 <= i < |entries|
      ensures Makes(ToRisRecord, entries[i], numbers) <==> Trim(entries[i].metadata.title) != [] {
      TitleMakesRecord(entries[i], numbers);
    }
  }

  lemma TitleMakesRecord(e: Entry, numbers: Numbers)
    ensures Makes(ToRisRecord, e, numbers) <==> Trim(e.metadata.title) != []
  {
  }

  /** Every citation is of a reference, the cited ones have a full text, and all have a title. */
  predicate Buildable(b: Book) {
    && (forall c <- b.citations :: c in Ids(b.entries)) && |b.entries| < U32
    && (forall i :: 0 <= i < |b.entries| ==> !LacksText(b, b.entries[i]))
    && (forall i :: 0 <= i < |b.entries| ==> Trim(b.entries[i].metadata.title) != [])
  }

  lemma RecordsAreTyped(entries: seq<Entry>, numbers: Numbers)
    requires RecordsTo(ToRisRecord, entries, numbers, |entries|).Ok?
    requires forall i :: 0 <= i < |entries| ==> entries[i].id in numbers
    ensures WriteAll(RecordsTo(ToRisRecord, entries, numbers, |entries|).value).Ok?
  {
    BuiltRecords(entries, numbers);
    var records := RecordsTo(ToRisRecord, entries, numbers, |entries|).value;
    forall r <- records ensures HasType(r) {
      var i :| 0 <= i < |records| && records[i] == r;
      assert IsRecord(records[i], entries[i], numbers);
      RecordHasType(entries[i], Some(numbers[entries[i].id]));
    }
  }

  lemma EveryEntryNumbered(b: Book, numbers: Numbers)
    requires NumbersFor(b, numbers)
    ensures forall i :: 0 <= i < |b.entries| ==> b.entries[i].id in numbers
  {
    var ids := Ids(b.entries);
    forall i | 0 <= i < |b.entries| ensures b.entries[i].id in numbers {
      assert ids[i] in ids;
      NumberedExactly(ids, b.citations, ids[i]);
    }
  }

  /** The builder succeeds exactly on such books. */
  lemma BuildSucceedsIff(rules: Rules, b: Book)
    ensures Build(rules, b).Ok? <==> Buildable(b)
  {
    AllKnown(b.citations, Ids(b.entries));
    MissingNone(b, |b.entries|);
    match Numbering(Ids(b.entries), b.citations)
    case Err(_) =>
    case Ok(numbers) =>
      TitlesMakeRecords(b.entries, numbers);
      EveryEntryNumbered(b, numbers);
      if RecordsTo(ToRisRecord, b.entries, numbers, |b.entries|).Ok? { RecordsAreTyped(b.entries, numbers); }
  }

  // ------------------------------------------------------------------ what it contains

  /** How many of the first `k` references have a full text. */
  function TextCount(b: Book, k: nat): nat
    requires k <= |b.entries|
  {
    if k == 0 then 0 else TextCount(b, k - 1) + if b.entries[k - 1].fulltext.Some? then 1 else 0
  }

  lemma {:induction false} OneFileForEach(rules: Rules, b: Book, numbers: Numbers, k: nat)
    requires k <= |b.entries| && forall i :: 0 <= i < |b.entries| ==> b.entries[i].id in numbers
    ensures |TextFilesTo(rules, b, numbers, k)| == TextCount(b, k)
  {
    if k > 0 {
      OneFileForEach(rules, b, numbers, k - 1);
      assert b.entries[k - 1].id in numbers;
    }
  }

  /** The file with the full text of a reference: its own bytes, under the path made of its number. */
  function FullText(rules: Rules, b: Book, numbers: Numbers, e: Entry): File
    requires e.id in numbers && e.fulltext.Some?
  {
    File(TextPath(rules, Prefix(rules, b), numbers, e), e.fulltext.value)
  }

  ghost predicate IsFullText(rules: Rules, b: Book, numbers: Numbers, f: File, i: nat) {
    && i < |b.entries| && b.entries[i].id in numbers && b.entries[i].fulltext.Some?
    && f == FullText(rules, b, numbers, b.entries[i])
  }

  lemma TextsAreExactly(rules: Rules, b: Book, numbers: Numbers, f: File)
    ensures f in TextFilesTo(rules, b, numbers, |b.entries|) <==>
            exists i: nat :: IsFullText(rules, b, numbers, f, i)
  {
    if f in TextFilesTo(rules, b, numbers, |b.entries|) {
      var i := TextFilesAreTexts(rules, b, numbers, |b.entries|, f);
      assert IsFullText(rules, b, numbers, f, i);
    }
    if i: nat :| IsFullText(rules, b, numbers, f, i) {
      var g := TextsAreFiles(rules, b, numbers, |b.entries|, i);
    }
  }

  /** The text file of the references, as it stands in the tree. */
  ghost predicate IsRis(rules: Rules, b: Book, numbers: Numbers, f: File) {
    && f.path == RisPath(Prefix(rules, b))
    && exists records :: RecordsTo(ToRisRecord, b.entries, numbers, |b.entries|) == Ok(records)
                         && WriteAll(records).Ok? && f.contents == Encode(WriteAll(records).value)
  }

  /**
    The text file of the references and, for each reference with a full text, a file with
    those bytes under the reference's own path; nothing else, in path order.
   */
  ghost predicate Holds(rules: Rules, b: Book, m: Manifest) {
    && NumbersFor(b, m.numbers)
    && (forall f :: f in m.files <==>
          IsRis(rules, b, m.numbers, f) || exists i: nat :: IsFullText(rules, b, m.numbers, f, i))
    && |m.files| == 1 + TextCount(b, |b.entries|)
    && forall i, j :: 0 <= i < j < |m.files| ==> TextLeq(m.files[i].path, m.files[j].path)
  }

  lemma FilesAreExactly(rules: Rules, b: Book, numbers: Numbers, records: seq<Record>)
    requires RecordsTo(ToRisRecord, b.entries, numbers, |b.entries|) == Ok(records) && WriteAll(records).Ok?
    ensures var ris := File(RisPath(Prefix(rules, b)), Encode(WriteAll(records).value));
            forall f :: f in ByPath([ris] + TextFilesTo(rules, b, numbers, |b.entries|)) <==>
              IsRis(rules, b, numbers, f) || exists i: nat :: IsFullText(rules, b, numbers, f, i)
  {
    var ris := File(RisPath(Prefix(rules, b)), Encode(WriteAll(records).value));
    var files := ByPath([ris] + TextFilesTo(rules, b, numbers, |b.entries|));
    SortedTree(rules, b, numbers, ris);
    forall f ensures f in files <==>
      IsRis(rules, b, numbers, f) || exists i: nat :: IsFullText(rules, b, numbers, f, i) {
      assert IsRis(rules, b, numbers, f) <==> f == ris;
      TextsAreExactly(rules, b, numbers, f);
    }
  }

  lemma BuildIs(rules: Rules, b: Book) returns (numbers: Numbers, records: seq<Record>, ris: File)
    requires Build(rules, b).Ok?
    ensures NumbersFor(b, numbers) && RecordsTo(ToRisRecord, b.entries, numbers, |b.entries|) == Ok(records)
    ensures WriteAll(records).Ok? && ris == File(RisPath(Prefix(rules, b)), Encode(WriteAll(records).value))
    ensures Build(rules, b).value ==
            Manifest(ByPath([ris] + TextFilesTo(rules, b, numbers, |b.entries|)), numbers)
  {
    numbers := Build(rules, b).value.numbers;
    records := RecordsTo(ToRisRecord, b.entries, numbers, |b.entries|).value;
    ris := File(RisPath(Prefix(rules, b)), Encode(WriteAll(records).value));
  }

  lemma BuildHolds(rules: Rules, b: Book)
    requires Build(rules, b).Ok?
    ensures Holds(rules, b, Build(rules, b).value)
  {
    var numbers, records, ris := BuildIs(rules, b);
    HoldsAll(rules, b, numbers, records, ris, [ris] + TextFilesTo(rules, b, numbers, |b.entries|));
  }

  lemma HoldsAll(rules: Rules, b: Book, numbers: Numbers, records: seq<Record>, ris: File, files: seq<File>)
    requires NumbersFor(b, numbers) && RecordsTo(ToRisRecord, b.entries, numbers, |b.entries|) == Ok(records)
    requires WriteAll(records).Ok? && ris == File(RisPath(Prefix(rules, b)), Encode(WriteAll(records).value))
    requires files == [ris] + TextFilesTo(rules, b, numbers, |b.entries|)
    ensures Holds(rules, b, Manifest(ByPath(files), numbers))
  {
    FilesAreExactly(rules, b, numbers, records);
    EveryEntryNumbered(b, numbers);
    OneFileForEach(rules, b, numbers, |b.entries|);
    InPathOrder(files);
  }

  /** A file name begins with the number of the reference and ends with the year, where one is given. */
  lemma NameTells(rules: Rules, number: nat, m: Metadata)
    ensures var name, digits := FileName(rules, number, m), |Decimal(number)|;
            && digits + 9 <= |name| && name[..digits] == Decimal(number) && name[digits] == '_'
            && name[|name| - 4..] == ".pdf"
            && (m.year.Some? && 0 <= m.year.value <= 9999 ==>
                  DigitsValue(name[|name| - 8..|name| - 4]) == m.year.value)
            && (!(m.year.Some? && 0 <= m.year.value <= 9999) ==> name[|name| - 8..|name| - 4] == "0000")
  {
    var name, year := FileName(rules, number, m), YearName(m.year);
    var middle := "_" + (rules.component(FirstAuthor(m), "UnknownAuthor") + "_");
    assert name == Decimal(number) + middle + year + ".pdf";
    assert name[|name| - 8..|name| - 4] == year;
    if m.year.Some? && 0 <= m.year.value <= 9999 {
      YearIsRead(m.year.value);
      assert m.year == Some(m.year.value) && DigitsValue(year) == m.year.value;
    }
  }

  lemma DigitAppended(s: string, d: nat)
    requires d < 10
    ensures DigitsValue(s + [Digit(d)]) == DigitsValue(s) * 10 + d
  {
    assert (s + [Digit(d)])[..|s|] == s;
  }

  lemma FourDigits(a: nat, b: nat, c: nat, d: nat, value: nat)
    requires a < 10 && b < 10 && c < 10 && d < 10 && value == ((a * 10 + b) * 10 + c) * 10 + d
    ensures DigitsValue([Digit(a), Digit(b), Digit(c), Digit(d)]) == value
  {
    DigitAppended([], a);
    DigitAppended([] + [Digit(a)], b);
    DigitAppended([] + [Digit(a)] + [Digit(b)], c);
    DigitAppended([] + [Digit(a)] + [Digit(b)] + [Digit(c)], d);
    assert [Digit(a), Digit(b), Digit(c), Digit(d)] == [] + [Digit(a)] + [Digit(b)] + [Digit(c)] + [Digit(d)];
  }

  lemma YearIsRead(y: nat)
    requires y <= 9999
    ensures DigitsValue(YearName(Some(y))) == y
  {
    DigitsOfYear(y);
    FourDigits(y / 1000, y / 100 % 10, y / 10 % 10, y % 10, y);
  }

  lemma DigitsOfYear(y: nat)
    ensures y == ((y / 1000 * 10 + y / 100 % 10) * 10 + y / 10 % 10) * 10 + y % 10
  {
    var tens, hundreds := y / 10, y / 100;
    assert y == tens * 10 + y % 10;
    assert tens / 10 == hundreds && tens == hundreds * 10 + tens % 10;
    assert hundreds / 10 == y / 1000 && hundreds == y / 1000 * 10 + hundreds % 10;
  }

  lemma InPathOrder(files: seq<File>)
    ensures |ByPath(files)| == |files|
    ensures forall i, j :: 0 <= i < j < |files| ==> TextLeq(ByPath(files)[i].path, ByPath(files)[j].path)
  {
    var leq := (a: File, b: File) => TextLeq(a.path, b.path);
    assert |multiset(ByPath(files))| == |multiset(files)|;
    forall a: File, b: File ensures leq(a, b) || leq(b, a) { TextTotal(a.path, b.path); }
    forall a: File, b: File, c: File | leq(a, b) && leq(b, c) ensures leq(a, c) {
      TextTransitive(a.path, b.path, c.path);
    }
    SortSorted(files, leq);
  }

  // ------------------------------------------------------------------ what acceptance tells

  /** The number a record gives an id: its `RN`, if it has the id as its `AN` and the number can be parsed. */
  function Given(r: Record, id: string): Option<nat> {
    if Find(r, "AN") != Some(id) then None
    else match Find(r, "RN") case None => None case Some(text) => ParseU32(text)
  }

  /** Of the first `k` records, `j` gives the id this number, and none after it gives it any. */
  ghost predicate GivesLast(records: seq<Record>, k: nat, j: int, id: string, n: nat)
    requires k <= |records|
  {
    0 <= j < k && Given(records[j], id) == Some(n) && forall l :: j < l < k ==> Given(records[l], id) == None
  }

  lemma OneMoreNumber(records: seq<Record>, k: nat, id: string)
    requires k < |records|
    ensures var before, after, given := RisNumbersTo(records, k), RisNumbersTo(records, k + 1), Given(records[k], id);
            if given.Some? then id in after && after[id] == given.value
            else (id in after <==> id in before) && (id in before ==> after[id] == before[id])
  {
  }

  /** The number read for an id is that of the last record that gives it one. */
  lemma {:induction false} LastNumberCounts(records: seq<Record>, k: nat, id: string)
    requires k <= |records|
    ensures var numbers := RisNumbersTo(records, k);
            && (id in numbers ==> exists j :: GivesLast(records, k, j, id, numbers[id]))
            && (id !in numbers ==> forall j :: 0 <= j < k ==> Given(records[j], id) == None)
  {
    if k > 0 {
      var last: nat, before := k - 1, RisNumbersTo(records, k - 1);
      LastNumberCounts(records, last, id);
      OneMoreNumber(records, last, id);
      if Given(records[last], id).Some? {
        assert GivesLast(records, k, last, id, Given(records[last], id).value);
      } else if id in before {
        var j :| GivesLast(records, last, j, id, before[id]);
        assert GivesLast(records, k, j, id, before[id]);
      }
    }
  }

  /**
    In a tree the validator accepts, every reference has a record with its id and its current
    number, and every cited one has a full text and a file for it.
   */
  lemma AcceptedTells(rules: Rules, b: Book, files: seq<File>, i: nat)
    returns (numbers: Numbers, records: seq<Record>, j: nat)
    requires Accepts(rules, b, files) && i < |b.entries|
    ensures var e, ris := b.entries[i], FindFile(files, RisPath(Prefix(rules, b)));
            && NumbersFor(b, numbers) && e.id in numbers
            && ris.Some? && Decode(ris.value).Some? && Parse(Decode(ris.value).value) == Ok(records)
            && j < |records| && Given(records[j], e.id) == Some(numbers[e.id])
            && (e.id in b.citations ==> HasText(e) && exists f <- files ::
                  f.path == TextPath(rules, Prefix(rules, b), numbers, e))
  {
    var e := b.entries[i];
    numbers := Numbering(Ids(b.entries), b.citations).value;
    EveryEntryNumbered(b, numbers);
    var contents := FindFile(files, RisPath(Prefix(rules, b))).value;
    assert e in b.entries && EntryIsGood(rules, b, files, numbers, ReadExport(rules, contents), e);
    records := Parse(Decode(contents).value).value;
    LastNumberCounts(records, |records|, e.id);
    j :| 0 <= j < |records| && GivesLast(records, |records|, j, e.id, numbers[e.id]);
  }
}
