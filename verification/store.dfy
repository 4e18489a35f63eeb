/**
 * What the controller sees of the object store: descriptors, the bounded resources a
 * read returns, the three kinds of read it can ask for, and the outcome of a delete.
 * The store itself is not modelled; the controller receives it as a function.
 */
module Store {
  import opened Wrappers
  import opened Numerals

  /** The logical address of a stored file: repository, architecture and file name. */
  datatype Descriptor = Descriptor(repo: string, arch: string, filename: string)

  /** The storage path of a descriptor, which the "end before start" message quotes. */
  function Path(d: Descriptor): (p: string)
    ensures |p| == |d.repo| + |d.arch| + |d.filename| + 2
    ensures p[..|d.repo|] == d.repo && p[|d.repo|] == '/'
  {
    d.repo + "/" + d.arch + "/" + d.filename
  }

  /**
   * A bounded resource: the number of bytes delivered, the length of the whole stored
   * file, the stored content type (absent when the store has none) and the stored file name.
   */
  datatype Resource = Resource(contentLength: Long, fileLength: Long, contentType: Option<string>, filename: string)

  /** The reads the controller asks the store for: the whole file, from an offset to the end, or a window. */
  datatype StoreRequest =
    | ReadWhole(d: Descriptor)
    | ReadFrom(d: Descriptor, offset: Long)
    | ReadWindow(d: Descriptor, offset: Long, length: Long)

  /** A store maps each read to the resource it yields, or `None` when the file is not found. */
  type Lookup = StoreRequest -> Option<Resource>

  /** What a delete in the store reports: the file was removed, or it was not there. */
  datatype DeleteOutcome = Deleted | NotFound
}
