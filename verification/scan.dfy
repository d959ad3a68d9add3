/** The fingerprinting rule shared by the two scanners of
    actor/v2action/resource.go, and the first of them, GatherArchiveResources,
    which describes every entry of an existing archive. The directory scanner
    is in module `DirectoryScan`.
 */
module Scan {
  import opened Errors
  import opened Strings
  import opened Resources
  import opened Sources

  /** The descriptor of one entry. A directory gets mode 0755, no hash and
      size 0; a file gets the given file mode, the digest of its content and
      its size. Because a digest is never empty, the hash is empty exactly for
      directories. */
  function Fingerprint(filename: string, isDir: bool, fileMode: FileMode, size: nat,
                       content: Bytes, digest: Digest): (r: Resource)
    ensures r.filename == filename
    ensures r.sha1 == "" <==> isDir
    ensures r.mode == (if isDir then DefaultFolderPermissions else fileMode)
    ensures isDir ==> r.size == 0
    ensures !isDir ==> r.sha1 == digest(content) && r.size == size
  {
    if isDir then Resource(filename, "", 0, DefaultFolderPermissions)
    else Resource(filename, digest(content), size, fileMode)
  }

  // ---------------------------------------------------------------------------
  // GatherArchiveResources
  // ---------------------------------------------------------------------------

  /** An archive entry the scanner can describe: a directory (never opened),
      or a file that opens and reads to its end. */
  predicate Hashable(f: ArchiveFile) {
    f.isDir || (f.stream.Opened? && f.stream.read.Complete?)
  }

  /** The descriptor of an archive entry: slash-normalised name, and for a
      file the fixed archive file mode 0744 and its declared size. */
  function ArchivedResource(f: ArchiveFile, sep: char, digest: Digest): Resource
    requires Hashable(f)
  {
    var content := if f.isDir then [] else f.stream.read.bytes;
    Fingerprint(ToSlash(f.name, sep), f.isDir, DefaultArchiveFilePermissions, f.size, content, digest)
  }

  /** The loop over the archive's entries. It stops at the first entry that
      cannot be opened or read, and then returns no resources at all. */
  function GatherFiles(files: seq<ArchiveFile>, sep: char, digest: Digest): (r: Result<Slice<Resource>>)
    ensures r.Err? ==> r.error == IoErr
    ensures r.Ok? <==> forall i | 0 <= i < |files| :: Hashable(files[i])
    ensures r.Ok? ==> (r.value.Nil? <==> |files| == 0)
    ensures r.Ok? ==> |r.value.Items()| == |files|
    ensures r.Ok? ==> forall i | 0 <= i < |files| ::
                        r.value.Items()[i] == ArchivedResource(files[i], sep, digest)
  {
    if |files| == 0 then Ok(Nil)
    else if !Hashable(files[0]) then Err(IoErr)
    else
      match GatherFiles(files[1..], sep, digest)
      case Err(e) => Err(e)
      case Ok(rest) => Ok(Slice([ArchivedResource(files[0], sep, digest)] + rest.Items()))
  }

  /** GatherArchiveResources: one descriptor per archive entry, in archive
      order; a nil slice for an archive with no entries; an error and no
      descriptors when the archive cannot be opened or any file entry cannot
      be opened or read. `sep` is the host path separator. */
  function GatherArchiveResources(archive: OpenedArchive, sep: char, digest: Digest): (r: Result<Slice<Resource>>)
    ensures r.Err? ==> r.error == IoErr
    ensures r.Ok? <==> archive.Listing? && forall i | 0 <= i < |archive.files| :: Hashable(archive.files[i])
    ensures r.Ok? ==> (r.value.Nil? <==> |archive.files| == 0)
    ensures r.Ok? ==> |r.value.Items()| == |archive.files|
    ensures r.Ok? ==> forall i | 0 <= i < |archive.files| ::
                        var f := archive.files[i];
                        var res := r.value.Items()[i];
                        && res.filename == ToSlash(f.name, sep)
                        && (f.isDir ==> res == Resource(res.filename, "", 0, DefaultFolderPermissions))
                        && (!f.isDir ==> res == Resource(res.filename, digest(f.stream.read.bytes), f.size,
                                                          DefaultArchiveFilePermissions))
  {
    match archive
    case Unreadable => Err(IoErr)
    case Listing(files) => GatherFiles(files, sep, digest)
  }
}
