/**
  The export of a bibliography: its builder, and the validator that reads the built files
  back without trusting the builder (crates/nisaba-references/src/lib.rs).
 */
module ExportTree {
  import opened Wrappers
  import opened Binary
  import opened Utf8
  import opened Files
  import opened Sorting
  import opened Occurrence
  import opened RisText
  import opened Decimals
  import opened Bibliography
  import opened RisExport

  datatype Book = Book(directory: string, entries: seq<Entry>, citations: seq<string>)

  datatype Manifest = Manifest(files: seq<File>, numbers: Numbers)

  /**
    What the model takes as given: how text becomes one component of a path, and which id
    an imported record without an accession number gets.
   */
  datatype Rules = Rules(component: (string, string) -> string, otherId: Record -> string)

  // ------------------------------------------------------------------ names

  function FirstAuthor(m: Metadata): string {
    if m.authors == [] then "UnknownAuthor"
    else
      match m.authors[0].family
      case Some(family) => family
      case None =>
        match m.authors[0].literal
        case Some(literal) => literal
        case None => "UnknownAuthor"
  }

  function YearName(year: Option<int>): string {
    if year.Some? && 0 <= year.value <= 9999 then
      var y: nat := year.value;
      [Digit(y / 1000), Digit(y / 100 % 10), Digit(y / 10 % 10), Digit(y % 10)]
    else "0000"
  }

  function FileName(rules: Rules, number: nat, m: Metadata): string {
    Decimal(number) + ("_" + (rules.component(FirstAuthor(m), "UnknownAuthor") + "_" + YearName(m.year) + ".pdf"))
  }

  function Prefix(rules: Rules, b: Book): string { rules.component(b.directory, "UnknownAuthor") }

  function RisPath(prefix: string): string { prefix + "/references.ris" }

  function TextDirectory(prefix: string): string { prefix + "/full-text/" }

  function TextPath(rules: Rules, prefix: string, numbers: Numbers, e: Entry): string
    requires e.id in numbers
  {
    TextDirectory(prefix) + FileName(rules, numbers[e.id], e.metadata)
  }

  // ------------------------------------------------------------------ building

  predicate HasText(e: Entry) { e.fulltext.Some? && e.fulltext.value != [] }

  /** The cited entries, of the first `k`, without a usable full text. */
  function MissingTo(b: Book, k: nat): seq<string>
    requires k <= |b.entries|
  {
    if k == 0 then []
    else
      var e := b.entries[k - 1];
      MissingTo(b, k - 1) + if e.id in b.citations && !HasText(e) then [e.id] else []
  }

  type Maker = (Entry, Option<nat>) -> Result<Record, ReferenceError>

  /** The records of the first `k` entries, up to the first that has none. */
  function RecordsTo(make: Maker, entries: seq<Entry>, numbers: Numbers, k: nat): Result<seq<Record>, ReferenceError>
    requires k <= |entries|
  {
    if k == 0 then Ok([])
    else
      match RecordsTo(make, entries, numbers, k - 1)
      case Err(error) => Err(error)
      case Ok(records) =>
        var e := entries[k - 1];
        match make(e, if e.id in numbers then Some(numbers[e.id]) else None)
        case Err(error) => Err(error)
        case Ok(record) => Ok(records + [record])
  }

  /** The full texts of the first `k` entries. */
  function TextFilesTo(rules: Rules, b: Book, numbers: Numbers, k: nat): seq<File>
    requires k <= |b.entries|
  {
    if k == 0 then []
    else
      var e := b.entries[k - 1];
      TextFilesTo(rules, b, numbers, k - 1) +
      if e.fulltext.Some? && e.id in numbers
      then [File(TextPath(rules, Prefix(rules, b), numbers, e), e.fulltext.value)]
      else []
  }

  function ByPath(files: seq<File>): seq<File> {
    Sort(files, (a: File, b: File) => TextLeq(a.path, b.path))
  }

  function Build(rules: Rules, b: Book): Result<Manifest, ReferenceError> {
    match Numbering(Ids(b.entries), b.citations)
    case Err(error) => Err(error)
    case Ok(numbers) =>
      var missing := MissingTo(b, |b.entries|);
      if missing != [] then Err(MissingFullText(missing))
      else
        match RecordsTo(ToRisRecord, b.entries, numbers, |b.entries|)
        case Err(error) => Err(error)
        case Ok(records) =>
          match WriteAll(records)
          case Err(error) => Err(Ris(error))
          case Ok(text) =>
            var ris := File(RisPath(Prefix(rules, b)), Encode(text));
            Ok(Manifest(ByPath([ris] + TextFilesTo(rules, b, numbers, |b.entries|)), numbers))
  }

  // ------------------------------------------------------------------ reading the tree

  predicate IdOk(id: string) { id != [] && '/' !in id && '\\' !in id }

  function ImportedId(rules: Rules, r: Record, index: nat): Result<string, ReferenceError> {
    if !HasTitle(r) then Err(MissingTitle)
    else
      var id := match Find(r, "AN") case Some(v) => v case None => rules.otherId(r);
      Ok(if IdOk(id) then id else "import-" + Decimal(index))
  }

  type Importer = (Record, nat) -> Result<string, ReferenceError>

  function ImporterOf(rules: Rules): Importer { (r: Record, index: nat) => ImportedId(rules, r, index) }

  function ImportedIdsTo(importId: Importer, records: seq<Record>, k: nat): Result<set<string>, ReferenceError>
    requires k <= |records|
  {
    if k == 0 then Ok({})
    else
      match (ImportedIdsTo(importId, records, k - 1), importId(records[k - 1], k - 1))
      case (Ok(ids), Ok(id)) => Ok(ids + {id})
      case (Err(error), _) => Err(error)
      case (_, Err(error)) => Err(error)
  }

  function RisNumbersTo(records: seq<Record>, k: nat): Numbers
    requires k <= |records|
  {
    if k == 0 then map[]
    else
      var before := RisNumbersTo(records, k - 1);
      match (Find(records[k - 1], "AN"), Find(records[k - 1], "RN"))
      case (Some(id), Some(text)) =>
        (match ParseU32(text) case Some(n) => before[id := n] case None => before)
      case _ => before
  }

  datatype Exported = NotText | Unreadable | Exported(ids: set<string>, numbers: Numbers)

  function ReadExport(rules: Rules, contents: Bytes): Exported {
    match Decode(contents)
    case None => NotText
    case Some(text) =>
      match Parse(text)
      case Err(_) => Unreadable
      case Ok(records) =>
        match ImportedIdsTo(ImporterOf(rules), records, |records|)
        case Err(_) => Unreadable
        case Ok(ids) => Exported(ids, RisNumbersTo(records, |records|))
  }

  function FindFile(files: seq<File>, path: string): Option<Bytes> {
    if files == [] then None
    else if files[0].path == path then Some(files[0].contents)
    else FindFile(files[1..], path)
  }

  predicate HasPath(files: seq<File>, path: string) { exists f <- files :: f.path == path }

  function ExpectedPaths(rules: Rules, b: Book, numbers: Numbers): set<string> {
    set e | e in b.entries && e.id in numbers :: TextPath(rules, Prefix(rules, b), numbers, e)
  }

  /** What the validator demands of one entry. */
  predicate EntryIsGood(rules: Rules, b: Book, files: seq<File>, numbers: Numbers, ex: Exported, e: Entry)
    requires e.id in numbers
  {
    && (e.id in b.citations ==> HasText(e) && HasPath(files, TextPath(rules, Prefix(rules, b), numbers, e)))
    && ex.Exported? && e.id in ex.numbers && ex.numbers[e.id] == numbers[e.id] && e.id in ex.ids
  }

  predicate StartsWith(s: string, prefix: string) { |prefix| <= |s| && s[..|prefix|] == prefix }

  /** The validator finds nothing wrong with a tree. */
  ghost predicate Accepts(rules: Rules, b: Book, files: seq<File>) {
    var numbering := Numbering(Ids(b.entries), b.citations);
    var prefix := Prefix(rules, b);
    numbering.Ok? && FindFile(files, RisPath(prefix)).Some? &&
    var numbers := numbering.value;
    var ex := ReadExport(rules, FindFile(files, RisPath(prefix)).value);
    && !ex.Unreadable?
    && (forall e <- b.entries :: e.id in numbers ==> EntryIsGood(rules, b, files, numbers, ex, e))
    && |ExpectedPaths(rules, b, numbers)| == |b.entries|
    && (forall f <- files :: StartsWith(f.path, TextDirectory(prefix)) ==> f.path in ExpectedPaths(rules, b, numbers))
  }
}
