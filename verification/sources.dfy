/** What the scanner and the packer read from, with every operating-system
    and archive-library call replaced by the outcome it produced. An input
    is the recorded result of each open, stat and read the code performs, so
    each operation becomes a deterministic fold over a sequence.
 */
module Sources {
  import opened Resources

  /** Reading an opened stream to its end: either every byte arrives, or the
      read fails after delivering `partial`. */
  datatype ReadOutcome = Complete(bytes: Bytes) | Broken(partial: Bytes) {
    /** The bytes delivered before the stream ended or failed. */
    function Delivered(): Bytes {
      match this
      case Complete(b) => b
      case Broken(p) => p
    }
  }

  /** Opening a content stream, then reading it. */
  datatype Stream = OpenFails | Opened(read: ReadOutcome)

  /** One entry of an archive's central directory: its name as stored, whether
      the archive marks it as a directory, its declared uncompressed size, and
      what opening and reading its content yields. */
  datatype ArchiveFile = ArchiveFile(name: string, isDir: bool, size: nat, stream: Stream)

  /** An archive as the size-validated random-access reader presents it.
      `Unreadable` covers a failed open of the archive file, a failed stat of
      it, and a central directory that does not validate. */
  datatype OpenedArchive = Unreadable | Listing(files: seq<ArchiveFile>)

  /** What the directory walk hands to its callback for one path. */
  datatype Visit =
    | WalkError
    | Visited(isDir: bool, mode: FileMode, size: nat, stream: Stream)

  /** One path visited by the walk, relative to the walk root in host form;
      the root itself has the relative path ".". */
  datatype WalkItem = WalkItem(relPath: string, visit: Visit)

  /** Opening a path of the host filesystem and then stat-ing the open file. */
  datatype FsLookup =
    | CannotOpen
    | CannotStat
    | Found(isDir: bool, read: ReadOutcome)

  /** The host filesystem, keyed by full path. */
  type FileSystem = string -> FsLookup
}
