/**
  References and their numbers in one build of a bibliography
  (crates/nisaba-references/src/lib.rs).
 */
module Bibliography {
  import opened Wrappers
  import opened Binary
  import opened RisText
  import opened Sorting
  import opened Occurrence

  datatype Person = Person(family: Option<string>, given: Option<string>, literal: Option<string>)

  datatype Metadata = Metadata(
    title: string,
    authors: seq<Person>,
    year: Option<int>,
    container: Option<string>,
    publisher: Option<string>,
    volume: Option<string>,
    issue: Option<string>,
    pages: Option<string>,
    doi: Option<string>,
    pmid: Option<string>,
    url: Option<string>,
    abstractText: Option<string>,
    keywords: seq<string>,
    language: Option<string>,
    itemType: Option<string>)

  datatype Provenance = Provenance(search: string, database: string, date: string)

  datatype Entry = Entry(
    id: string,
    metadata: Metadata,
    unknown: seq<Tag>,
    fulltext: Option<Bytes>,
    provenance: seq<Provenance>)

  datatype ReferenceError =
    | UnknownCitation(id: string)
    | TooManyEntries
    | MissingTitle
    | MissingFullText(ids: seq<string>)
    | Ris(error: RisError)

  type Numbers = map<string, nat>

  // ------------------------------------------------------------------ order

  /** The position of the first citation of an id; past all citations if there is none. */
  function FirstCitation(citations: seq<string>, id: string): (r: nat)
    ensures r <= |citations|
  {
    if citations == [] || citations[0] == id then 0 else 1 + FirstCitation(citations[1..], id)
  }

  /** By first citation, then by id. */
  predicate Before(citations: seq<string>, a: string, b: string) {
    var i, j := FirstCitation(citations, a), FirstCitation(citations, b);
    i < j || (i == j && TextLeq(a, b))
  }

  lemma BeforeOrders(citations: seq<string>)
    ensures Orders((a: string, b: string) => Before(citations, a, b))
  {
    forall a, b ensures Before(citations, a, b) || Before(citations, b, a) { TextTotal(a, b); }
    forall a, b, c | Before(citations, a, b) && Before(citations, b, c) ensures Before(citations, a, c) {
      if FirstCitation(citations, a) == FirstCitation(citations, c) { TextTransitive(a, b, c); }
    }
  }

  // ------------------------------------------------------------------ numbers

  function Ids(entries: seq<Entry>): (r: seq<string>)
    ensures |r| == |entries|
  {
    seq(|entries|, i requires 0 <= i < |entries| => entries[i].id)
  }

  /** The ids in the order in which they are numbered. */
  function Ordered(ids: seq<string>, citations: seq<string>): seq<string> {
    Sort(ids, (a: string, b: string) => Before(citations, a, b))
  }

  function NumbersTo(ordered: seq<string>, k: nat): Numbers
    requires k <= |ordered|
  {
    if k == 0 then map[] else NumbersTo(ordered, k - 1)[ordered[k - 1] := k]
  }

  /** The first cited id that no entry has. */
  function UnknownIn(citations: seq<string>, ids: seq<string>): Option<string> {
    if citations == [] then None
    else if citations[0] !in ids then Some(citations[0])
    else UnknownIn(citations[1..], ids)
  }

  function Numbering(ids: seq<string>, citations: seq<string>): Result<Numbers, ReferenceError> {
    match UnknownIn(citations, ids)
    case Some(id) => Err(UnknownCitation(id))
    case None =>
      if |ids| >= U32 then Err(TooManyEntries)
      else
        var ordered := Ordered(ids, citations);
        Ok(NumbersTo(ordered, |ordered|))
  }

  lemma {:induction false} NumberOfPosition(ordered: seq<string>, k: nat, i: nat)
    requires Distinct(ordered) && i < k <= |ordered|
    ensures ordered[i] in NumbersTo(ordered, k) && NumbersTo(ordered, k)[ordered[i]] == i + 1
  {
    if i < k - 1 { NumberOfPosition(ordered, k - 1, i); }
  }

  lemma {:induction false} NumberedIds(ordered: seq<string>, k: nat, id: string)
    requires k <= |ordered|
    ensures id in NumbersTo(ordered, k) <==> id in ordered[..k]
  {
    if k > 0 {
      NumberedIds(ordered, k - 1, id);
      assert ordered[..k] == ordered[..k - 1] + [ordered[k - 1]];
    }
  }

  lemma OrderedFacts(ids: seq<string>, citations: seq<string>)
    ensures var o := Ordered(ids, citations);
            |o| == |ids| && Sorted(o, (a: string, b: string) => Before(citations, a, b))
            && (forall id :: id in o <==> id in ids) && (Distinct(ids) ==> Distinct(o))
  {
    var leq := (a: string, b: string) => Before(citations, a, b);
    var o := Sort(ids, leq);
    assert |multiset(o)| == |multiset(ids)|;
    BeforeOrders(citations);
    SortSorted(ids, leq);
    forall id ensures id in o <==> id in ids { SameElements(o, ids, id); }
    if Distinct(ids) { SortDistinct(ids, leq); }
  }

  /** The place of an id in the order is its number. */
  lemma PlaceOf(ids: seq<string>, citations: seq<string>, id: string) returns (i: nat)
    requires Distinct(ids) && Numbering(ids, citations).Ok? && id in ids
    ensures var o := Ordered(ids, citations); i < |o| && |o| == |ids| && o[i] == id
    ensures var numbers := Numbering(ids, citations).value; id in numbers && numbers[id] == i + 1
  {
    var o := Ordered(ids, citations);
    OrderedFacts(ids, citations);
    assert id in o;
    i :| 0 <= i < |o| && o[i] == id;
    NumberOfPosition(o, |o|, i);
  }

  lemma NumberedExactly(ids: seq<string>, citations: seq<string>, id: string)
    requires Numbering(ids, citations).Ok?
    ensures id in Numbering(ids, citations).value <==> id in ids
  {
    var o := Ordered(ids, citations);
    OrderedFacts(ids, citations);
    NumberedIds(o, |o|, id);
    assert o[..|o|] == o;
  }

  lemma NumberIsTaken(ids: seq<string>, citations: seq<string>, n: nat) returns (id: string)
    requires Distinct(ids) && Numbering(ids, citations).Ok? && 1 <= n <= |ids|
    ensures var numbers := Numbering(ids, citations).value; id in ids && id in numbers && numbers[id] == n
  {
    var o := Ordered(ids, citations);
    OrderedFacts(ids, citations);
    id := o[n - 1];
    assert id in o && id in ids;
    NumberOfPosition(o, |o|, n - 1);
  }

  ghost predicate HasNumber(numbers: Numbers, id: string, n: nat) { id in numbers && numbers[id] == n }

  /** The ids and the numbers from one to their count correspond one to one. */
  ghost predicate NumbersOff(numbers: Numbers, ids: seq<string>) {
    && (forall id :: id in numbers <==> id in ids)
    && (forall id <- ids :: id in numbers && 1 <= numbers[id] <= |ids|)
    && (forall a, b, n :: HasNumber(numbers, a, n) && HasNumber(numbers, b, n) ==> a == b)
    && (forall n: nat {:trigger Holder(numbers, ids, n)} :: 1 <= n <= |ids| ==> Holder(numbers, ids, n))
  }

  ghost predicate Holder(numbers: Numbers, ids: seq<string>, n: nat) {
    exists id :: id in ids && HasNumber(numbers, id, n)
  }

  lemma SameNumberSameId(ids: seq<string>, citations: seq<string>, a: string, b: string)
    requires Distinct(ids) && Numbering(ids, citations).Ok? && a in ids && b in ids
    ensures var numbers := Numbering(ids, citations).value;
            a in numbers && b in numbers && (numbers[a] == numbers[b] ==> a == b)
  {
    var i := PlaceOf(ids, citations, a);
    var j := PlaceOf(ids, citations, b);
  }

  /** The numbers count from one without a gap, and no two references share one. */
  lemma NumbersAreABijection(ids: seq<string>, citations: seq<string>)
    requires Distinct(ids) && Numbering(ids, citations).Ok?
    ensures NumbersOff(Numbering(ids, citations).value, ids)
  {
    var numbers := Numbering(ids, citations).value;
    forall id ensures id in numbers <==> id in ids { NumberedExactly(ids, citations, id); }
    forall id <- ids ensures id in numbers && 1 <= numbers[id] <= |ids| { var i := PlaceOf(ids, citations, id); }
    forall a, b, n | HasNumber(numbers, a, n) && HasNumber(numbers, b, n) ensures a == b {
      SameNumberSameId(ids, citations, a, b);
    }
    forall n: nat | 1 <= n <= |ids| ensures Holder(numbers, ids, n) {
      var id := NumberIsTaken(ids, citations, n);
      assert HasNumber(numbers, id, n);
    }
  }

  /** A reference is numbered lower exactly if it is cited first, or, cited alike, has the lower id. */
  lemma NumbersFollowCitations(ids: seq<string>, citations: seq<string>, a: string, b: string)
    requires Distinct(ids) && Numbering(ids, citations).Ok? && a in ids && b in ids && a != b
    ensures var numbers := Numbering(ids, citations).value;
            a in numbers && b in numbers && (numbers[a] < numbers[b] <==> Before(citations, a, b))
  {
    var o := Ordered(ids, citations);
    var i := PlaceOf(ids, citations, a);
    var j := PlaceOf(ids, citations, b);
    OrderedFacts(ids, citations);
    TextTotal(a, b);
    assert i < j ==> Before(citations, o[i], o[j]);
    assert j < i ==> Before(citations, o[j], o[i]);
  }

  // ------------------------------------------------------------------ the order of the input

  /** Two references cited alike, or not at all, keep their order exactly if the ids are in order. */
  lemma CitedAlikeByIds(ids: seq<string>, citations: seq<string>, i: nat, j: nat)
    requires Distinct(ids) && Numbering(ids, citations).Ok? && i < j < |ids|
    requires FirstCitation(citations, ids[i]) == FirstCitation(citations, ids[j])
    ensures var numbers := Numbering(ids, citations).value;
            ids[i] in numbers && ids[j] in numbers &&
            (numbers[ids[i]] < numbers[ids[j]] <==> TextLeq(ids[i], ids[j]))
  {
    assert ids[i] != ids[j];
    NumbersFollowCitations(ids, citations, ids[i], ids[j]);
  }

  /** Two references without a citation, in input order. */
  predicate UncitedPair(ids: seq<string>, citations: seq<string>, i: int, j: int) {
    0 <= i < j < |ids| && ids[i] !in citations && ids[j] !in citations
  }

  /** The uncited references are numbered in the order of the input. */
  ghost predicate InputOrderKept(ids: seq<string>, citations: seq<string>, numbers: Numbers) {
    forall i, j :: UncitedPair(ids, citations, i, j) ==>
      ids[i] in numbers && ids[j] in numbers && numbers[ids[i]] < numbers[ids[j]]
  }

  lemma {:induction false} NotCited(citations: seq<string>, id: string)
    requires id !in citations
    ensures FirstCitation(citations, id) == |citations|
  {
    if citations != [] { NotCited(citations[1..], id); }
  }

  /** They are exactly if their ids stand in the input in the order of the ids. */
  lemma InputOrderKeptIff(ids: seq<string>, citations: seq<string>)
    requires Distinct(ids) && Numbering(ids, citations).Ok?
    ensures InputOrderKept(ids, citations, Numbering(ids, citations).value) <==>
            forall i, j :: UncitedPair(ids, citations, i, j) ==> TextLeq(ids[i], ids[j])
  {
    var numbers := Numbering(ids, citations).value;
    forall i, j | UncitedPair(ids, citations, i, j)
      ensures ids[i] in numbers && ids[j] in numbers
      ensures numbers[ids[i]] < numbers[ids[j]] <==> TextLeq(ids[i], ids[j])
    {
      NotCited(citations, ids[i]);
      NotCited(citations, ids[j]);
      CitedAlikeByIds(ids, citations, i, j);
    }
  }

  /** Neither "b" nor "a" is cited and "b" comes first in the input, but "a" gets the lower number. */
  lemma InputOrderCanChange()
    ensures Distinct(["b", "a"]) && Numbering(["b", "a"], []).Ok?
    ensures var numbers := Numbering(["b", "a"], []).value;
            "a" in numbers && "b" in numbers && numbers["a"] < numbers["b"]
    ensures !InputOrderKept(["b", "a"], [], Numbering(["b", "a"], []).value)
  {
    var ids := ["b", "a"];
    assert ids[0] == "b" && ids[1] == "a" && UnknownIn([], ids) == None;
    NumbersFollowCitations(ids, [], "a", "b");
    assert UncitedPair(ids, [], 0, 1);
  }
}
