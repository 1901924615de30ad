/** A file of an export: a path below its root and its bytes. */
module Files {
  import opened Binary

  datatype File = File(path: string, contents: Bytes)
}
