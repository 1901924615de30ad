/**
  The archive layout of crates/nisaba-export/src/lib.rs: stored entries, a central directory
  and an end record, as sections 4.3.7, 4.3.12 and 4.3.16 of the PKWARE ZIP APPNOTE lay them
  out, and a reader that starts from the end record and knows nothing of the writer.
 */
module Zip {
  import opened Wrappers
  import opened Binary
  import opened Chunks

  /** A stored entry: its name and its data as bytes, and the checksum recorded for the data. */
  datatype Item = Item(name: Bytes, crc: nat, data: Bytes)

  // The widths of the fields of the three records.
  const LOCAL: seq<nat> := [4, 2, 2, 2, 2, 2, 4, 4, 4, 2, 2]
  const CENTRAL: seq<nat> := [4, 2, 2, 2, 2, 2, 2, 4, 4, 4, 2, 2, 2, 2, 2, 4, 4]
  const END: seq<nat> := [4, 2, 2, 2, 2, 4, 4, 2]

  const LOCAL_MAGIC: nat := 0x0403_4b50
  const CENTRAL_MAGIC: nat := 0x0201_4b50
  const END_MAGIC: nat := 0x0605_4b50
  const UTF8_NAMES: nat := 2048

  // ------------------------------------------------------------------ the layout

  function LocalValues(e: Item): seq<nat> {
    [LOCAL_MAGIC, 20, UTF8_NAMES, 0, 0, 0, e.crc, |e.data|, |e.data|, |e.name|, 0]
  }

  function CentralValues(e: Item, offset: nat): seq<nat> {
    [CENTRAL_MAGIC, 20, 20, UTF8_NAMES, 0, 0, 0, e.crc, |e.data|, |e.data|, |e.name|, 0, 0, 0, 0, 0, offset]
  }

  function EndValues(count: nat, size: nat, offset: nat): seq<nat> {
    [END_MAGIC, 0, 0, count, count, size, offset, 0]
  }

  function LocalRecord(e: Item): Bytes { Fields(LocalValues(e), LOCAL) + e.name + e.data }

  function CentralRecord(e: Item, offset: nat): Bytes { Fields(CentralValues(e, offset), CENTRAL) + e.name }

  /** Where the local record of entry `k` begins. */
  function OffsetOf(items: seq<Item>, k: nat): nat
    requires k <= |items|
  {
    if k == 0 then 0 else OffsetOf(items, k - 1) + 30 + |items[k - 1].name| + |items[k - 1].data|
  }

  function LocalsTo(items: seq<Item>, k: nat): Bytes
    requires k <= |items|
  {
    if k == 0 then [] else LocalsTo(items, k - 1) + LocalRecord(items[k - 1])
  }

  /** The size of the first `k` directory records. */
  function DirectorySize(items: seq<Item>, k: nat): nat
    requires k <= |items|
  {
    if k == 0 then 0 else DirectorySize(items, k - 1) + 46 + |items[k - 1].name|
  }

  function DirectoryTo(items: seq<Item>, k: nat): Bytes
    requires k <= |items|
  {
    if k == 0 then [] else DirectoryTo(items, k - 1) + CentralRecord(items[k - 1], OffsetOf(items, k - 1))
  }

  /** Where the local records end and the directory begins. */
  function CentralStart(items: seq<Item>): nat { OffsetOf(items, |items|) }

  /** Where the directory ends and the end record begins. */
  function CentralEnd(items: seq<Item>): nat { CentralStart(items) + DirectorySize(items, |items|) }

  function EndRecord(items: seq<Item>): Bytes {
    Fields(EndValues(|items|, DirectorySize(items, |items|), CentralStart(items)), END)
  }

  function Archive(items: seq<Item>): Bytes {
    LocalsTo(items, |items|) + DirectoryTo(items, |items|) + EndRecord(items)
  }

  /** The limits of the format: every length, offset and count fits its field. */
  predicate WithinLimits(items: seq<Item>) {
    |items| < U16 && CentralEnd(items) < U32
    && forall k :: 0 <= k < |items| ==> |items[k].name| < U16 && items[k].crc < U32
  }

  // ------------------------------------------------------------------ the reader

  /** What a directory record says of an entry, and where the next record begins. */
  datatype Listed = Listed(name: Bytes, crc: nat, size: nat, offset: nat, next: nat)

  /** The data of an entry, if its local header agrees with what the directory says of it. */
  function LocalData(zip: Bytes, d: Listed): Option<Bytes> {
    var at := d.offset;
    var from := at + 30 + |d.name| + FieldAt(zip, at + 28, 2);
    if FieldAt(zip, at, 4) == LOCAL_MAGIC && FieldAt(zip, at + 6, 2) == UTF8_NAMES && FieldAt(zip, at + 8, 2) == 0
       && FieldAt(zip, at + 14, 4) == d.crc && FieldAt(zip, at + 18, 4) == d.size && FieldAt(zip, at + 22, 4) == d.size
       && FieldAt(zip, at + 26, 2) == |d.name| && At(zip, at + 30, d.name) && from + d.size <= |zip|
    then Some(zip[from..from + d.size])
    else None
  }

  /** What the directory record at `at` says. */
  function DirectoryEntry(zip: Bytes, at: nat): Option<Listed> {
    var nameEnd := at + 46 + FieldAt(zip, at + 28, 2);
    if FieldAt(zip, at, 4) == CENTRAL_MAGIC && FieldAt(zip, at + 8, 2) == UTF8_NAMES && FieldAt(zip, at + 10, 2) == 0
       && FieldAt(zip, at + 20, 4) == FieldAt(zip, at + 24, 4) && nameEnd <= |zip|
    then
      Some(Listed(zip[at + 46..nameEnd], FieldAt(zip, at + 16, 4), FieldAt(zip, at + 24, 4), FieldAt(zip, at + 42, 4),
                  nameEnd + FieldAt(zip, at + 30, 2) + FieldAt(zip, at + 32, 2)))
    else None
  }

  type Directory = nat -> Option<Listed>

  type Store = Listed -> Option<Bytes>

  /** Reads the directory record at a position. */
  function DirectoryOf(zip: Bytes): Directory {
    (at: nat) => DirectoryEntry(zip, at)
  }

  /** Follows a directory record to its data. */
  function StoreOf(zip: Bytes): Store {
    (d: Listed) => LocalData(zip, d)
  }

  /** `n` entries from position `at` on, which must then end exactly at `end`. */
  function ReadEntries(directory: Directory, store: Store, at: nat, n: nat, end: nat): Option<seq<Item>>
    decreases n
  {
    if n == 0 then (if at == end then Some([]) else None)
    else
      match directory(at)
      case None => None
      case Some(d) =>
        match (store(d), ReadEntries(directory, store, d.next, n - 1, end))
        case (Some(data), Some(items)) => Some([Item(d.name, d.crc, data)] + items)
        case _ => None
  }

  /** The entries of an archive whose end record is its last 22 bytes. */
  function ReadArchive(zip: Bytes): Option<seq<Item>> {
    if |zip| < 22 then None
    else
      var end := |zip| - 22;
      var count, size, offset := FieldAt(zip, end + 10, 2), FieldAt(zip, end + 12, 4), FieldAt(zip, end + 16, 4);
      if FieldAt(zip, end, 4) == END_MAGIC && FieldAt(zip, end + 4, 2) == 0 && FieldAt(zip, end + 6, 2) == 0
         && FieldAt(zip, end + 8, 2) == count && offset + size == end && FieldAt(zip, end + 20, 2) == 0
      then ReadEntries(DirectoryOf(zip), StoreOf(zip), offset, count, end)
      else None
  }
}
