/**
  Files as archive entries (crates/nisaba-export/src/lib.rs): which paths are let in, and
  how a reader gets back from entries to files, checking names and checksums.
 */
module ArchiveFiles {
  import opened Wrappers
  import opened Binary
  import opened Utf8
  import opened Files
  import opened Crc32
  import opened Zip
  import opened ZipRoundTrip

  // ------------------------------------------------------------------ paths

  predicate IsControl(c: char) { c as int < 0x20 || 0x7F <= c as int < 0xA0 }

  /** The parts of a path between its slashes. */
  function Split(path: string): (r: seq<string>)
    ensures |r| >= 1
  {
    if path == [] then [""]
    else
      var rest := Split(path[1..]);
      if path[0] == '/' then [""] + rest else [[path[0]] + rest[0]] + rest[1..]
  }

  predicate SafePath(path: string) {
    path != [] && path[0] != '/'
    && (forall c <- path :: c != '\\' && c != ':' && !IsControl(c))
    && (forall part <- Split(path) :: part != "" && part != "." && part != "..")
  }

  /** Where a path leads from a directory, as a file system takes it; none above the root. */
  function Walk(at: seq<string>, parts: seq<string>, k: nat): Option<seq<string>>
    requires k <= |parts|
  {
    if k == 0 then Some(at)
    else
      match Walk(at, parts, k - 1)
      case None => None
      case Some(here) =>
        var part := parts[k - 1];
        if part == "" || part == "." then Some(here)
        else if part == ".." then (if here == [] then None else Some(here[..|here| - 1]))
        else Some(here + [part])
  }

  /** Unpacked anywhere, a safe path stays below the directory it is unpacked in. */
  lemma {:induction false} SafePathStaysBelow(path: string, root: seq<string>, k: nat)
    requires SafePath(path) && k <= |Split(path)|
    ensures Walk(root, Split(path), k) == Some(root + Split(path)[..k])
  {
    var parts := Split(path);
    if k == 0 {
      assert root + parts[..0] == root;
    } else {
      SafePathStaysBelow(path, root, k - 1);
      assert parts[k - 1] in parts;
      assert root + parts[..k] == root + parts[..k - 1] + [parts[k - 1]];
    }
  }

  // ------------------------------------------------------------------ files and entries

  function ItemOf(f: File): Item { Item(Encode(f.path), Crc(f.contents), f.contents) }

  function Items(files: seq<File>): (r: seq<Item>)
    ensures |r| == |files|
  {
    seq(|files|, k requires 0 <= k < |files| => ItemOf(files[k]))
  }

  /** The file of an entry, unless its name is no text or its checksum does not match. */
  function FileOf(e: Item): Option<File> {
    if Crc(e.data) != e.crc then None
    else
      match Decode(e.name)
      case None => None
      case Some(path) => Some(File(path, e.data))
  }

  /** The files of the first `k` entries, unless one of them cannot be read. */
  function FilesTo(read: Item -> Option<File>, items: seq<Item>, k: nat): Option<seq<File>>
    requires k <= |items|
  {
    if k == 0 then Some([])
    else
      match (FilesTo(read, items, k - 1), read(items[k - 1]))
      case (Some(files), Some(file)) => Some(files + [file])
      case _ => None
  }

  function ReadFiles(zip: Bytes): Option<seq<File>> {
    match ReadArchive(zip)
    case None => None
    case Some(items) => FilesTo(FileOf, items, |items|)
  }

  lemma FileBack(f: File)
    ensures FileOf(ItemOf(f)) == Some(f)
  {
    DecodeEncode(f.path);
  }

  lemma {:induction false} FilesBack(read: Item -> Option<File>, items: seq<Item>, files: seq<File>, k: nat)
    requires k <= |files| == |items| && forall i :: 0 <= i < |files| ==> read(items[i]) == Some(files[i])
    ensures FilesTo(read, items, k) == Some(files[..k])
  {
    if k > 0 {
      FilesBack(read, items, files, k - 1);
      assert files[..k] == files[..k - 1] + [files[k - 1]];
    }
  }

  /** An archive gives back exactly its files, in order, every checksum verified. */
  lemma FilesReadBack(files: seq<File>)
    requires WithinLimits(Items(files))
    ensures ReadFiles(Archive(Items(files))) == Some(files)
  {
    ArchiveReadsBack(Items(files));
    forall i | 0 <= i < |files| ensures FileOf(Items(files)[i]) == Some(files[i]) { FileBack(files[i]); }
    FilesBack(FileOf, Items(files), files, |files|);
    assert files[..|files|] == files;
  }
}
