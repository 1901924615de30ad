/** The writer itself: bytes appended record by record (crates/nisaba-export/src/lib.rs). */
module ZipWriters {
  import opened Wrappers
  import opened Binary
  import opened Utf8
  import opened Files
  import opened Chunks
  import opened Crc32
  import opened Zip
  import opened ZipRoundTrip
  import opened ArchiveFiles

  datatype ExportError = Blocked(path: string) | NameTooLong(path: string) | ArchiveTooLarge

  datatype Entry = Entry(name: string, crc: nat, size: nat, offset: nat)

  lemma {:induction false} AppendedItem(items: seq<Item>, e: Item, k: nat)
    requires k <= |items|
    ensures LocalsTo(items + [e], k) == LocalsTo(items, k) && OffsetOf(items + [e], k) == OffsetOf(items, k)
  {
    if k > 0 { AppendedItem(items, e, k - 1); }
  }

  /** The entry a writer keeps for an item. */
  predicate Records(entry: Entry, e: Item, offset: nat) {
    Encode(entry.name) == e.name && entry.crc == e.crc && entry.size == |e.data| && entry.offset == offset
  }

  /** The local records of `items` have been written, and `entries` lists them. */
  ghost predicate Holds(bytes: Bytes, entries: seq<Entry>, items: seq<Item>) {
    bytes == LocalsTo(items, |items|) && Lists(entries, items)
  }

  ghost predicate Lists(entries: seq<Entry>, items: seq<Item>) {
    |entries| == |items|
    && forall k: nat {:trigger Records(entries[k], items[k], OffsetOf(items, k))} :: k < |items| ==>
         Records(entries[k], items[k], OffsetOf(items, k))
  }

  lemma RecordsOneMore(entries: seq<Entry>, items: seq<Item>, entry: Entry, e: Item, k: nat)
    requires |entries| == |items| && k <= |items|
    requires if k == |items| then Records(entry, e, OffsetOf(items, k))
             else Records(entries[k], items[k], OffsetOf(items, k))
    ensures Records((entries + [entry])[k], (items + [e])[k], OffsetOf(items + [e], k))
  {
    assert OffsetOf(items + [e], k) == OffsetOf(items, k) by { AppendedItem(items, e, k); }
  }

  lemma DirectoryOneMore(start: Bytes, items: seq<Item>, k: nat)
    requires k < |items|
    ensures start + DirectoryTo(items, k) + CentralRecord(items[k], OffsetOf(items, k))
            == start + DirectoryTo(items, k + 1)
  {
    var a, b := DirectoryTo(items, k), CentralRecord(items[k], OffsetOf(items, k));
    assert start + a + b == start + (a + b);
  }

  lemma LocalsOneMore(items: seq<Item>, e: Item)
    ensures LocalsTo(items + [e], |items| + 1) == LocalsTo(items, |items|) + LocalRecord(e)
  {
    AppendedItem(items, e, |items|);
  }

  lemma HoldsOneMore(bytes: Bytes, entries: seq<Entry>, items: seq<Item>, entry: Entry, e: Item)
    requires Holds(bytes, entries, items) && Records(entry, e, OffsetOf(items, |items|))
    ensures Holds(bytes + LocalRecord(e), entries + [entry], items + [e])
  {
    LocalsOneMore(items, e);
    forall k: nat | k < |items + [e]|
      ensures Records((entries + [entry])[k], (items + [e])[k], OffsetOf(items + [e], k))
    {
      RecordsOneMore(entries, items, entry, e, k);
    }
  }

  class ZipWriter {
    var bytes: Bytes
    var entries: seq<Entry>
    ghost var items: seq<Item>

    ghost predicate Valid()
      reads this
    {
      Holds(bytes, entries, items)
    }

    constructor ()
      ensures Valid() && items == []
    {
      bytes := [];
      entries := [];
      items := [];
    }

    /** Little-endian fields of the given widths, one after the other. */
    method PutFields(values: seq<nat>, shape: seq<nat>)
      requires |values| == |shape|
      modifies this`bytes
      ensures bytes == old(bytes) + Fields(values, shape)
    {
      ghost var parts := FieldParts(values, shape);
      for k := 0 to |shape|
        invariant bytes == old(bytes) + ConcatTo(parts, k)
      {
        bytes := bytes + LittleEndian(values[k], shape[k]);
      }
    }

    method PutLocal(name: Bytes, crc: nat, data: Bytes)
      modifies this`bytes
      ensures bytes == old(bytes) + LocalRecord(Item(name, crc, data))
    {
      var size := |data|;
      PutFields([LOCAL_MAGIC, 20, UTF8_NAMES, 0, 0, 0, crc, size, size, |name|, 0], LOCAL);
      bytes := bytes + name;
      bytes := bytes + data;
    }

    method Add(name: string, data: Bytes) returns (r: Result<(), ExportError>)
      requires Valid()
      modifies this
      ensures Valid()
      ensures r.Ok? <==> |Encode(name)| < U16 && |data| < U32 && OffsetOf(old(items), |old(items)|) < U32
      ensures r.Ok? ==> items == old(items) + [ItemOf(File(name, data))]
      ensures r.Err? ==> r.error == if |Encode(name)| >= U16 then NameTooLong(name) else ArchiveTooLarge
      ensures r.Err? ==> items == old(items) && bytes == old(bytes) && entries == old(entries)
    {
      var nameBytes := Encode(name);
      if |nameBytes| > 65535 { return Err(NameTooLong(name)); }
      var offset := |bytes|;
      Lengths(items, |items|);
      if |data| > 0xffff_ffff || offset > 0xffff_ffff { return Err(ArchiveTooLarge); }
      var crc := Crc32.Crc32(data);
      Store(name, nameBytes, crc, data, offset);
      r := Ok(());
    }

    method Store(name: string, nameBytes: Bytes, crc: nat, data: Bytes, offset: nat)
      requires Valid() && nameBytes == Encode(name) && offset == OffsetOf(items, |items|)
      modifies this
      ensures Valid() && items == old(items) + [Item(nameBytes, crc, data)]
    {
      ghost var e, entry := Item(nameBytes, crc, data), Entry(name, crc, |data|, offset);
      HoldsOneMore(bytes, entries, items, entry, e);
      PutLocal(nameBytes, crc, data);
      entries := entries + [Entry(name, crc, |data|, offset)];
      items := items + [e];
    }

    method PutCentral(entry: Entry, name: Bytes, ghost e: Item)
      requires Records(entry, e, entry.offset) && name == e.name
      modifies this`bytes
      ensures bytes == old(bytes) + CentralRecord(e, entry.offset)
    {
      var size := entry.size;
      PutFields([CENTRAL_MAGIC, 20, 20, UTF8_NAMES, 0, 0, 0, entry.crc, size, size, |name|, 0, 0, 0, 0, 0,
                 entry.offset],
                CENTRAL);
      bytes := bytes + name;
    }

    /** One record of the directory, unless the name is too long to be listed. */
    method PutListed(k: nat, ghost start: Bytes) returns (ok: bool)
      requires k < |entries| && Lists(entries, items) && ListedTo(start, bytes, items, k)
      modifies this`bytes
      ensures if ok then ListedTo(start, bytes, items, k + 1) else !NamesFit(items)
    {
      NamesFitNext(items, k);
      var name := Encode(entries[k].name);
      assert Records(entries[k], items[k], OffsetOf(items, k));
      if |name| > 65535 { return false; }
      PutCentral(entries[k], name, items[k]);
      DirectoryOneMore(start, items, k);
      ok := true;
    }

    /** The directory; stops at a name too long to be listed. */
    method PutDirectory() returns (tooLong: Option<string>)
      requires Lists(entries, items)
      modifies this`bytes
      ensures if tooLong.None? then ListedTo(old(bytes), bytes, items, |items|) else !NamesFit(items)
    {
      NoneListed(bytes, items);
      for k := 0 to |entries|
        invariant ListedTo(old(bytes), bytes, items, k)
      {
        var ok := PutListed(k, old(bytes));
        if !ok { return Some(entries[k].name); }
      }
      tooLong := None;
    }

    /** The directory and the end record complete the archive. */
    method Finish() returns (r: Result<Bytes, ExportError>)
      requires Valid()
      modifies this`bytes
      ensures r.Ok? <==> |items| < U16 && CentralEnd(items) < U32 && NamesFit(items)
      ensures r.Ok? ==> r.value == Archive(items)
      ensures r.Err? ==> !r.error.Blocked?
    {
      var central := |bytes|;
      assert central == CentralStart(items) by { Lengths(items, |items|); }
      if central > 0xffff_ffff || |entries| > 65535 { return Err(ArchiveTooLarge); }
      var tooLong := PutDirectory();
      if tooLong.Some? { return Err(NameTooLong(tooLong.value)); }
      assert |bytes| == CentralEnd(items) by { Lengths(items, |items|); }
      if |bytes| > 0xffff_ffff { return Err(ArchiveTooLarge); }
      PutFields([END_MAGIC, 0, 0, |entries|, |entries|, |bytes| - central, central, 0], END);
      r := Ok(bytes);
    }
  }

  ghost predicate NamesFitTo(items: seq<Item>, k: nat)
    requires k <= |items|
  {
    forall i: nat :: i < k ==> |items[i].name| < U16
  }

  /** The first `k` directory records follow what was written before. */
  ghost predicate ListedTo(start: Bytes, bytes: Bytes, items: seq<Item>, k: nat) {
    k <= |items| && bytes == start + DirectoryTo(items, k) && NamesFitTo(items, k)
  }

  lemma NoneListed(start: Bytes, items: seq<Item>)
    ensures ListedTo(start, start, items, 0)
  {
    assert start + [] == start;
  }

  ghost predicate NamesFit(items: seq<Item>) { NamesFitTo(items, |items|) }

  lemma NamesFitNext(items: seq<Item>, k: nat)
    requires k < |items| && NamesFitTo(items, k)
    ensures NamesFitTo(items, k + 1) <==> |items[k].name| < U16
    ensures |items[k].name| >= U16 ==> !NamesFit(items)
  {
  }

  ghost predicate SafeTo(files: seq<File>, k: nat)
    requires k <= |files|
  {
    forall i: nat :: i < k ==> SafePath(files[i].path)
  }

  ghost predicate AllSafe(files: seq<File>) { SafeTo(files, |files|) }

  lemma SafeNext(files: seq<File>, k: nat)
    requires k < |files| && SafeTo(files, k)
    ensures SafePath(files[k].path) ==> SafeTo(files, k + 1)
    ensures !SafePath(files[k].path) ==> !AllSafe(files)
  {
    if SafePath(files[k].path) {
      forall i: nat | i < k + 1 ensures SafePath(files[i].path) { }
    }
  }

  /** A prefix that does not fit cannot be part of an archive that does. */
  lemma NoRoom(files: seq<File>, k: nat)
    requires k <= |files| && OffsetOf(Items(files), k) >= U32
    ensures !WithinLimits(Items(files))
  {
    OffsetsGrow(Items(files), k, |files|);
  }

  lemma LimitsFromParts(files: seq<File>)
    ensures WithinLimits(Items(files)) <==>
            |files| < U16 && CentralEnd(Items(files)) < U32 && NamesFit(Items(files))
  {
    forall k: nat | k < |files| ensures Items(files)[k].crc < U32 { CrcBound(files[k].contents); }
  }

  lemma {:induction false} SameOffsets(xs: seq<Item>, ys: seq<Item>, k: nat)
    requires k <= |xs| && k <= |ys| && forall i :: 0 <= i < k ==> xs[i] == ys[i]
    ensures OffsetOf(xs, k) == OffsetOf(ys, k)
  {
    if k > 0 { SameOffsets(xs, ys, k - 1); }
  }

  lemma ItemsPrefix(files: seq<File>, k: nat)
    requires k <= |files|
    ensures OffsetOf(Items(files[..k]), k) == OffsetOf(Items(files), k)
  {
    SameOffsets(Items(files[..k]), Items(files), k);
  }

  method AddNext(writer: ZipWriter, files: seq<File>, k: nat) returns (r: Result<(), ExportError>)
    requires k < |files| && writer.Valid() && writer.items == Items(files[..k])
    modifies writer
    ensures r.Ok? ==> writer.Valid() && writer.items == Items(files[..k + 1])
    ensures r.Err? ==> !r.error.Blocked? && !WithinLimits(Items(files))
  {
    r := writer.Add(files[k].path, files[k].contents);
    if r.Err? { Refused(files, k); } else { ItemsOneMore(files, k); }
  }

  method AddAll(writer: ZipWriter, files: seq<File>) returns (r: Result<(), ExportError>)
    requires writer.Valid() && writer.items == []
    modifies writer
    ensures r.Ok? ==> writer.Valid() && writer.items == Items(files) && AllSafe(files)
    ensures r.Err? ==> if r.error.Blocked? then !AllSafe(files) else !WithinLimits(Items(files))
  {
    for k: nat := 0 to |files|
      invariant writer.Valid() && writer.items == Items(files[..k])
      invariant SafeTo(files, k)
    {
      SafeNext(files, k);
      if !SafePath(files[k].path) { return Err(Blocked(files[k].path)); }
      r := AddNext(writer, files, k);
      if r.Err? { return; }
    }
    assert files[..|files|] == files;
    r := Ok(());
  }

  lemma ItemsOneMore(files: seq<File>, k: nat)
    requires k < |files|
    ensures Items(files[..k + 1]) == Items(files[..k]) + [ItemOf(File(files[k].path, files[k].contents))]
  {
  }

  /** Either all files go in, or nothing is returned: the only reasons are unsafe paths and the limits. */
  method WriteZip(files: seq<File>) returns (r: Result<Bytes, ExportError>)
    ensures r.Ok? <==> AllSafe(files) && WithinLimits(Items(files))
    ensures r.Ok? ==> r.value == Archive(Items(files)) && ReadFiles(r.value) == Some(files)
    ensures r.Err? ==> if r.error.Blocked? then !AllSafe(files) else !WithinLimits(Items(files))
  {
    var writer := new ZipWriter();
    var added := AddAll(writer, files);
    if added.Err? { return Err(added.error); }
    r := writer.Finish();
    LimitsFromParts(files);
    if r.Ok? { FilesReadBack(files); }
  }

  lemma Refused(files: seq<File>, k: nat)
    requires k < |files|
    requires |Encode(files[k].path)| >= U16 || |files[k].contents| >= U32 || OffsetOf(Items(files[..k]), k) >= U32
    ensures !WithinLimits(Items(files))
  {
    var items := Items(files);
    if |Encode(files[k].path)| >= U16 {
      assert |items[k].name| >= U16;
    } else if |files[k].contents| >= U32 {
      NoRoom(files, k + 1);
    } else {
      ItemsPrefix(files, k);
      NoRoom(files, k);
    }
  }
}
