/** Every archive within the limits of the format is read back entry by entry. */
module ZipRoundTrip {
  import opened Wrappers
  import opened Binary
  import opened Chunks
  import opened Zip

  // ------------------------------------------------------------------ sizes

  lemma LocalOffsets()
    ensures WidthTo(LOCAL, 2) == 6 && WidthTo(LOCAL, 3) == 8 && WidthTo(LOCAL, 6) == 14 && WidthTo(LOCAL, 7) == 18
    ensures WidthTo(LOCAL, 8) == 22 && WidthTo(LOCAL, 9) == 26 && WidthTo(LOCAL, 10) == 28 && Width(LOCAL) == 30
  {
    assert WidthTo(LOCAL, 2) == 6;
    assert WidthTo(LOCAL, 4) == 10;
    assert WidthTo(LOCAL, 6) == 14;
    assert WidthTo(LOCAL, 8) == 22;
  }

  lemma CentralOffsets()
    ensures WidthTo(CENTRAL, 3) == 8 && WidthTo(CENTRAL, 4) == 10 && WidthTo(CENTRAL, 7) == 16
    ensures WidthTo(CENTRAL, 8) == 20 && WidthTo(CENTRAL, 9) == 24 && WidthTo(CENTRAL, 10) == 28
    ensures WidthTo(CENTRAL, 11) == 30 && WidthTo(CENTRAL, 12) == 32 && WidthTo(CENTRAL, 16) == 42
    ensures Width(CENTRAL) == 46
  {
    assert WidthTo(CENTRAL, 2) == 6;
    assert WidthTo(CENTRAL, 4) == 10;
    assert WidthTo(CENTRAL, 6) == 14;
    assert WidthTo(CENTRAL, 8) == 20;
    assert WidthTo(CENTRAL, 10) == 28;
    assert WidthTo(CENTRAL, 12) == 32;
    assert WidthTo(CENTRAL, 14) == 36;
    assert WidthTo(CENTRAL, 16) == 42;
  }

  lemma EndOffsets()
    ensures WidthTo(END, 1) == 4 && WidthTo(END, 2) == 6 && WidthTo(END, 3) == 8 && WidthTo(END, 4) == 10
    ensures WidthTo(END, 5) == 12 && WidthTo(END, 6) == 16 && WidthTo(END, 7) == 20 && Width(END) == 22
  {
    assert WidthTo(END, 2) == 6;
    assert WidthTo(END, 4) == 10;
    assert WidthTo(END, 6) == 16;
  }

  lemma LocalLength(e: Item)
    ensures |LocalRecord(e)| == 30 + |e.name| + |e.data|
  {
    LocalOffsets();
    FieldsLength(LocalValues(e), LOCAL);
  }

  lemma CentralLength(e: Item, offset: nat)
    ensures |CentralRecord(e, offset)| == 46 + |e.name|
  {
    CentralOffsets();
    FieldsLength(CentralValues(e, offset), CENTRAL);
  }

  lemma {:induction false} Lengths(items: seq<Item>, k: nat)
    requires k <= |items|
    ensures |LocalsTo(items, k)| == OffsetOf(items, k) && |DirectoryTo(items, k)| == DirectorySize(items, k)
  {
    if k > 0 {
      Lengths(items, k - 1);
      LocalLength(items[k - 1]);
      CentralLength(items[k - 1], OffsetOf(items, k - 1));
    }
  }

  lemma {:induction false} OffsetsGrow(items: seq<Item>, j: nat, k: nat)
    requires j <= k <= |items|
    ensures OffsetOf(items, j) <= OffsetOf(items, k)
  {
    if j < k { OffsetsGrow(items, j, k - 1); }
  }

  // ------------------------------------------------------------------ where the records stand

  lemma {:induction false} LocalAt(items: seq<Item>, j: nat, k: nat)
    requires j < k <= |items|
    ensures At(LocalsTo(items, k), OffsetOf(items, j), LocalRecord(items[j]))
  {
    Lengths(items, k - 1);
    var front, last, record := LocalsTo(items, k - 1), LocalRecord(items[k - 1]), LocalRecord(items[j]);
    if j == k - 1 {
      AtEnd(front, last);
    } else {
      LocalAt(items, j, k - 1);
      AtStays(front, last, OffsetOf(items, j), record);
    }
  }

  lemma {:induction false} CentralAt(items: seq<Item>, j: nat, k: nat)
    requires j < k <= |items|
    ensures At(DirectoryTo(items, k), DirectorySize(items, j), CentralRecord(items[j], OffsetOf(items, j)))
  {
    Lengths(items, k - 1);
    var front, last := DirectoryTo(items, k - 1), CentralRecord(items[k - 1], OffsetOf(items, k - 1));
    var record := CentralRecord(items[j], OffsetOf(items, j));
    if j == k - 1 {
      AtEnd(front, last);
    } else {
      CentralAt(items, j, k - 1);
      AtStays(front, last, DirectorySize(items, j), record);
    }
  }

  lemma SplitAt(zip: Bytes, at: nat, a: Bytes, b: Bytes)
    requires At(zip, at, a + b)
    ensures At(zip, at, a) && At(zip, at + |a|, b)
  {
    AtStays(a, b, 0, a);
    AtInside(zip, at, a + b, 0, a);
    AtEnd(a, b);
    AtInside(zip, at, a + b, |a|, b);
  }

  lemma SplitWhole(a: Bytes, b: Bytes, c: Bytes)
    ensures At(a + b + c, 0, a) && At(a + b + c, |a|, b) && At(a + b + c, |a| + |b|, c)
  {
    var zip := a + b + c;
    assert At(zip, 0, zip);
    SplitAt(zip, 0, a + b, c);
    SplitAt(zip, 0, a, b);
  }

  lemma ArchiveParts(items: seq<Item>)
    ensures var zip := Archive(items);
            At(zip, 0, LocalsTo(items, |items|)) && At(zip, CentralStart(items), DirectoryTo(items, |items|))
            && At(zip, CentralEnd(items), EndRecord(items)) && |zip| == CentralEnd(items) + 22
  {
    Lengths(items, |items|);
    EndOffsets();
    FieldsLength(EndValues(|items|, DirectorySize(items, |items|), CentralStart(items)), END);
    SplitWhole(LocalsTo(items, |items|), DirectoryTo(items, |items|), EndRecord(items));
  }

  // ------------------------------------------------------------------ reading back

  predicate Fits(e: Item) { |e.name| < U16 && |e.data| < U32 && e.crc < U32 }

  lemma LocalFits(e: Item)
    requires Fits(e)
    ensures FieldsFit(LocalValues(e), LOCAL)
  {
    Powers();
  }

  lemma CentralFits(e: Item, offset: nat)
    requires Fits(e) && offset < U32
    ensures FieldsFit(CentralValues(e, offset), CENTRAL)
  {
    Powers();
  }

  lemma EndFits(count: nat, size: nat, offset: nat)
    requires count < U16 && size < U32 && offset < U32
    ensures FieldsFit(EndValues(count, size, offset), END)
  {
    Powers();
  }

  /** The local header of an entry can be read at `at`. */
  ghost predicate LocalHeader(zip: Bytes, e: Item, at: nat) {
    FieldAt(zip, at, 4) == LOCAL_MAGIC && FieldAt(zip, at + 6, 2) == UTF8_NAMES && FieldAt(zip, at + 8, 2) == 0
    && FieldAt(zip, at + 14, 4) == e.crc && FieldAt(zip, at + 18, 4) == |e.data| && FieldAt(zip, at + 22, 4) == |e.data|
    && FieldAt(zip, at + 26, 2) == |e.name| && FieldAt(zip, at + 28, 2) == 0
  }

  lemma LocalHeaderBack(zip: Bytes, e: Item, at: nat)
    requires FieldsFit(LocalValues(e), LOCAL) && At(zip, at, Fields(LocalValues(e), LOCAL))
    ensures LocalHeader(zip, e, at)
  {
    LocalOffsets();
    var v := LocalValues(e);
    FieldReadBack(zip, at, v, LOCAL, 0, 0);
    FieldReadBack(zip, at, v, LOCAL, 2, 6);
    FieldReadBack(zip, at, v, LOCAL, 3, 8);
    FieldReadBack(zip, at, v, LOCAL, 6, 14);
    FieldReadBack(zip, at, v, LOCAL, 7, 18);
    FieldReadBack(zip, at, v, LOCAL, 8, 22);
    FieldReadBack(zip, at, v, LOCAL, 9, 26);
    FieldReadBack(zip, at, v, LOCAL, 10, 28);
  }

  /** The directory record of an entry can be read at `at`. */
  ghost predicate CentralHeader(zip: Bytes, e: Item, at: nat, offset: nat) {
    FieldAt(zip, at, 4) == CENTRAL_MAGIC && FieldAt(zip, at + 8, 2) == UTF8_NAMES && FieldAt(zip, at + 10, 2) == 0
    && FieldAt(zip, at + 16, 4) == e.crc && FieldAt(zip, at + 20, 4) == |e.data| && FieldAt(zip, at + 24, 4) == |e.data|
    && FieldAt(zip, at + 28, 2) == |e.name| && FieldAt(zip, at + 30, 2) == 0 && FieldAt(zip, at + 32, 2) == 0
    && FieldAt(zip, at + 42, 4) == offset
  }

  lemma CentralHeaderBack(zip: Bytes, e: Item, at: nat, offset: nat)
    requires FieldsFit(CentralValues(e, offset), CENTRAL) && At(zip, at, Fields(CentralValues(e, offset), CENTRAL))
    ensures CentralHeader(zip, e, at, offset)
  {
    CentralOffsets();
    var v := CentralValues(e, offset);
    FieldReadBack(zip, at, v, CENTRAL, 0, 0);
    FieldReadBack(zip, at, v, CENTRAL, 3, 8);
    FieldReadBack(zip, at, v, CENTRAL, 4, 10);
    FieldReadBack(zip, at, v, CENTRAL, 7, 16);
    FieldReadBack(zip, at, v, CENTRAL, 8, 20);
    FieldReadBack(zip, at, v, CENTRAL, 9, 24);
    FieldReadBack(zip, at, v, CENTRAL, 10, 28);
    FieldReadBack(zip, at, v, CENTRAL, 11, 30);
    FieldReadBack(zip, at, v, CENTRAL, 12, 32);
    FieldReadBack(zip, at, v, CENTRAL, 16, 42);
  }

  ghost predicate EndHeader(zip: Bytes, at: nat, count: nat, size: nat, offset: nat) {
    FieldAt(zip, at, 4) == END_MAGIC && FieldAt(zip, at + 4, 2) == 0 && FieldAt(zip, at + 6, 2) == 0
    && FieldAt(zip, at + 8, 2) == count && FieldAt(zip, at + 10, 2) == count && FieldAt(zip, at + 12, 4) == size
    && FieldAt(zip, at + 16, 4) == offset && FieldAt(zip, at + 20, 2) == 0
  }

  lemma EndHeaderBack(zip: Bytes, at: nat, count: nat, size: nat, offset: nat)
    requires FieldsFit(EndValues(count, size, offset), END) && At(zip, at, Fields(EndValues(count, size, offset), END))
    ensures EndHeader(zip, at, count, size, offset)
  {
    EndOffsets();
    var v := EndValues(count, size, offset);
    FieldReadBack(zip, at, v, END, 0, 0);
    FieldReadBack(zip, at, v, END, 1, 4);
    FieldReadBack(zip, at, v, END, 2, 6);
    FieldReadBack(zip, at, v, END, 3, 8);
    FieldReadBack(zip, at, v, END, 4, 10);
    FieldReadBack(zip, at, v, END, 5, 12);
    FieldReadBack(zip, at, v, END, 6, 16);
    FieldReadBack(zip, at, v, END, 7, 20);
  }

  ghost predicate LocalReadable(zip: Bytes, e: Item, offset: nat) {
    LocalHeader(zip, e, offset) && At(zip, offset + 30, e.name) && At(zip, offset + 30 + |e.name|, e.data)
  }

  ghost predicate CentralReadable(zip: Bytes, e: Item, at: nat, offset: nat) {
    CentralHeader(zip, e, at, offset) && At(zip, at + 46, e.name)
  }

  lemma LocalIsReadable(zip: Bytes, e: Item, offset: nat)
    requires Fits(e) && At(zip, offset, LocalRecord(e))
    ensures LocalReadable(zip, e, offset)
  {
    var h := Fields(LocalValues(e), LOCAL);
    assert |h| == 30 by {
      LocalOffsets();
      FieldsLength(LocalValues(e), LOCAL);
    }
    SplitAt(zip, offset, h + e.name, e.data);
    SplitAt(zip, offset, h, e.name);
    LocalFits(e);
    LocalHeaderBack(zip, e, offset);
  }

  lemma CentralIsReadable(zip: Bytes, e: Item, at: nat, offset: nat)
    requires Fits(e) && offset < U32 && At(zip, at, CentralRecord(e, offset))
    ensures CentralReadable(zip, e, at, offset)
  {
    var h := Fields(CentralValues(e, offset), CENTRAL);
    assert |h| == 46 by {
      CentralOffsets();
      FieldsLength(CentralValues(e, offset), CENTRAL);
    }
    SplitAt(zip, at, h, e.name);
    CentralFits(e, offset);
    CentralHeaderBack(zip, e, at, offset);
  }

  function ListedAs(e: Item, offset: nat, next: nat): Listed {
    Listed(e.name, e.crc, |e.data|, offset, next)
  }

  lemma StoreFinds(zip: Bytes, e: Item, offset: nat, next: nat)
    requires LocalReadable(zip, e, offset)
    ensures StoreOf(zip)(ListedAs(e, offset, next)) == Some(e.data)
  {
    assert LocalData(zip, ListedAs(e, offset, next)) == Some(e.data);
  }

  lemma DirectoryFinds(zip: Bytes, e: Item, at: nat, offset: nat, next: nat)
    requires CentralReadable(zip, e, at, offset) && next == at + 46 + |e.name|
    ensures DirectoryOf(zip)(at) == Some(ListedAs(e, offset, next))
  {
    assert DirectoryEntry(zip, at) == Some(ListedAs(e, offset, next));
  }

  lemma OffsetFits(items: seq<Item>, k: nat)
    requires WithinLimits(items) && k <= |items|
    ensures OffsetOf(items, k) < U32
  {
    OffsetsGrow(items, k, |items|);
  }

  lemma DataFits(items: seq<Item>, k: nat)
    requires WithinLimits(items) && k < |items|
    ensures |items[k].data| < U32
  {
    OffsetFits(items, k + 1);
  }

  /** An entry is no larger than the archive it is in. */
  lemma EntryFits(items: seq<Item>, k: nat)
    requires WithinLimits(items) && k < |items|
    ensures Fits(items[k])
  {
    DataFits(items, k);
  }

  lemma LocalOfEntry(zip: Bytes, items: seq<Item>, k: nat)
    requires k < |items| && Fits(items[k]) && At(zip, 0, LocalsTo(items, |items|))
    ensures LocalReadable(zip, items[k], OffsetOf(items, k))
  {
    var offset, record, all := OffsetOf(items, k), LocalRecord(items[k]), LocalsTo(items, |items|);
    assert At(all, offset, record) by { LocalAt(items, k, |items|); }
    AtInside(zip, 0, all, offset, record);
    LocalIsReadable(zip, items[k], offset);
  }

  lemma CentralOfEntry(zip: Bytes, items: seq<Item>, k: nat)
    requires k < |items| && Fits(items[k]) && OffsetOf(items, k) < U32
    requires At(zip, CentralStart(items), DirectoryTo(items, |items|))
    ensures CentralReadable(zip, items[k], EntryStart(items, k), OffsetOf(items, k))
  {
    var record, all := CentralRecord(items[k], OffsetOf(items, k)), DirectoryTo(items, |items|);
    assert At(all, DirectorySize(items, k), record) by { CentralAt(items, k, |items|); }
    AtInside(zip, CentralStart(items), all, DirectorySize(items, k), record);
    CentralIsReadable(zip, items[k], EntryStart(items, k), OffsetOf(items, k));
  }

  /** Where directory record `k` begins. */
  ghost function EntryStart(items: seq<Item>, k: nat): nat
    requires k <= |items|
  {
    CentralStart(items) + DirectorySize(items, k)
  }

  /** What the directory lists of entry `k`. */
  ghost function ListedEntry(items: seq<Item>, k: nat): Listed
    requires k < |items|
  {
    ListedAs(items[k], OffsetOf(items, k), EntryStart(items, k + 1))
  }

  /** Reading directory record `k` gives entry `k` and leads to the next record. */
  ghost predicate Chained(directory: Directory, store: Store, items: seq<Item>, k: nat)
    requires k < |items|
  {
    directory(EntryStart(items, k)) == Some(ListedEntry(items, k))
      && store(ListedEntry(items, k)) == Some(items[k].data)
  }

  lemma {:induction false} ChainReadBack(directory: Directory, store: Store, items: seq<Item>, k: nat)
    requires k <= |items|
    requires forall i: nat :: i < |items| ==> Chained(directory, store, items, i)
    ensures ReadEntries(directory, store, EntryStart(items, k), |items| - k, CentralEnd(items)) == Some(items[k..])
    decreases |items| - k
  {
    if k < |items| {
      ChainReadBack(directory, store, items, k + 1);
      assert Chained(directory, store, items, k);
      assert [items[k]] + items[k + 1..] == items[k..];
    } else {
      assert items[k..] == [];
    }
  }

  lemma AllChained(zip: Bytes, items: seq<Item>, k: nat)
    requires WithinLimits(items) && k < |items|
    requires At(zip, 0, LocalsTo(items, |items|)) && At(zip, CentralStart(items), DirectoryTo(items, |items|))
    ensures Chained(DirectoryOf(zip), StoreOf(zip), items, k)
  {
    assert Fits(items[k]) && OffsetOf(items, k) < U32 by {
      EntryFits(items, k);
      OffsetFits(items, k);
    }
    assert DirectoryOf(zip)(EntryStart(items, k)) == Some(ListedEntry(items, k)) by {
      CentralOfEntry(zip, items, k);
      DirectoryFinds(zip, items[k], EntryStart(items, k), OffsetOf(items, k), EntryStart(items, k + 1));
    }
    assert StoreOf(zip)(ListedEntry(items, k)) == Some(items[k].data) by {
      LocalOfEntry(zip, items, k);
      StoreFinds(zip, items[k], OffsetOf(items, k), EntryStart(items, k + 1));
    }
  }

  lemma ArchiveOpens(zip: Bytes, count: nat, size: nat, offset: nat, r: Option<seq<Item>>)
    requires |zip| == offset + size + 22 && EndHeader(zip, offset + size, count, size, offset)
    requires ReadEntries(DirectoryOf(zip), StoreOf(zip), offset, count, offset + size) == r
    ensures ReadArchive(zip) == r
  {
  }

  lemma WholeChain(directory: Directory, store: Store, items: seq<Item>)
    requires forall i: nat :: i < |items| ==> Chained(directory, store, items, i)
    ensures ReadEntries(directory, store, CentralStart(items), |items|, CentralEnd(items)) == Some(items)
  {
    assert EntryStart(items, 0) == CentralStart(items) && items[0..] == items;
    ChainReadBack(directory, store, items, 0);
  }

  lemma EntriesReadBack(zip: Bytes, items: seq<Item>)
    requires WithinLimits(items)
    requires At(zip, 0, LocalsTo(items, |items|)) && At(zip, CentralStart(items), DirectoryTo(items, |items|))
    ensures ReadEntries(DirectoryOf(zip), StoreOf(zip), CentralStart(items), |items|, CentralEnd(items)) == Some(items)
  {
    forall k: nat | k < |items| ensures Chained(DirectoryOf(zip), StoreOf(zip), items, k) { AllChained(zip, items, k); }
    WholeChain(DirectoryOf(zip), StoreOf(zip), items);
  }

  lemma EntriesOfArchive(items: seq<Item>)
    requires WithinLimits(items)
    ensures var zip := Archive(items);
            ReadEntries(DirectoryOf(zip), StoreOf(zip), CentralStart(items), |items|, CentralEnd(items)) == Some(items)
  {
    ArchiveParts(items);
    EntriesReadBack(Archive(items), items);
  }

  lemma EndOfArchive(items: seq<Item>)
    requires WithinLimits(items)
    ensures EndHeader(Archive(items), CentralEnd(items), |items|, DirectorySize(items, |items|), CentralStart(items))
  {
    ArchiveParts(items);
    EndFits(|items|, DirectorySize(items, |items|), CentralStart(items));
    EndHeaderBack(Archive(items), CentralEnd(items), |items|, DirectorySize(items, |items|), CentralStart(items));
  }

  lemma ArchiveLength(items: seq<Item>)
    ensures |Archive(items)| == CentralEnd(items) + 22
  {
    ArchiveParts(items);
  }

  /** Every archive written is read back entry by entry, in order. */
  lemma ArchiveReadsBack(items: seq<Item>)
    requires WithinLimits(items)
    ensures ReadArchive(Archive(items)) == Some(items)
  {
    ArchiveLength(items);
    EntriesOfArchive(items);
    EndOfArchive(items);
    ArchiveOpens(Archive(items), |items|, DirectorySize(items, |items|), CentralStart(items), Some(items));
  }
}
