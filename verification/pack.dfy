/** The archive packer of actor/v2action/resource.go: addFileToZipFromFileSystem,
    which writes one entry while hashing the bytes it copies, and the two
    loops that drive it, ZipArchiveResources (over the entries of a source
    archive) and ZipDirectoryResources (over the include list).

    The zip writer is modelled as the sequence of entries written so far.
    Both loops are one fold (`PackJobs`) over a sequence of jobs; each entry
    point only decides which jobs to run.
 */
module Pack {
  import opened Errors
  import opened Strings
  import opened Resources
  import opened Sources
  import Scan
  import DirectoryScan
  import DirectoryScanProperties

  datatype Method = Store | Deflate

  /** One entry of the archive being written: its header name, compression
      method and mode, and the bytes copied into it. */
  datatype ZipEntry = ZipEntry(name: string, compression: Method, mode: FileMode, data: Bytes)

  /** The writer's entries after a step, and the step's error, if any. */
  datatype Packing = Packing(written: seq<ZipEntry>, outcome: Outcome)

  // ---------------------------------------------------------------------------
  // addFileToZipFromFileSystem
  // ---------------------------------------------------------------------------

  /** The header name of an entry: a directory's name gets exactly one '/'
      appended unless it already ends in one; a file's name is unchanged. */
  function EntryName(isDir: bool, destPath: string): (name: string)
    ensures !isDir ==> name == destPath
    ensures isDir ==> EndsWithSlash(name)
    ensures isDir && EndsWithSlash(destPath) ==> name == destPath
    ensures isDir && !EndsWithSlash(destPath) ==> name == destPath + "/"
  {
    if isDir && !EndsWithSlash(destPath) then destPath + "/" else destPath
  }

  /** The directory rule adds at most one slash: applying it again changes
      nothing, and the original name is always a prefix of the result. */
  lemma EntryNameIdempotent(isDir: bool, destPath: string)
    ensures EntryName(isDir, EntryName(isDir, destPath)) == EntryName(isDir, destPath)
    ensures destPath <= EntryName(isDir, destPath)
    ensures |EntryName(isDir, destPath)| <= |destPath| + 1
  {
  }

  /** addFileToZipFromFileSystem, after its caller opened the source. It
      always writes one entry, named by `EntryName`, with the Deflate method
      and the supplied mode. A directory is never read nor hash-checked. A
      file's bytes are copied and hashed in the same pass: the entry holds
      exactly the bytes read (a prefix, when the read fails), and the step
      fails with `FileChanged(srcPath)` precisely when the copy completed but
      its digest differs from `sha1Sum`. */
  function AddFileToZip(w: seq<ZipEntry>, srcPath: string, isDir: bool, read: ReadOutcome,
                        destPath: string, sha1Sum: string, mode: FileMode, digest: Digest): (r: Packing)
    ensures |r.written| == |w| + 1 && r.written[..|w|] == w
    ensures r.written[|w|].name == EntryName(isDir, destPath)
    ensures r.written[|w|].compression == Deflate && r.written[|w|].mode == mode
    ensures r.written[|w|].data == if isDir then [] else read.Delivered()
    ensures isDir ==> r.outcome == Pass
    ensures !isDir && read.Broken? ==> r.outcome == Fail(IoErr)
    ensures !isDir && read.Complete? ==>
              (r.outcome == Fail(FileChanged(srcPath)) <==> digest(read.bytes) != sha1Sum)
    ensures !isDir && read.Complete? ==> (r.outcome == Pass <==> digest(read.bytes) == sha1Sum)
    ensures r.outcome == Pass || r.outcome == Fail(IoErr) || r.outcome == Fail(FileChanged(srcPath))
  {
    var name := EntryName(isDir, destPath);
    if isDir then
      Packing(w + [ZipEntry(name, Deflate, mode, [])], Pass)
    else
      var written := w + [ZipEntry(name, Deflate, mode, read.Delivered())];
      match read
      case Broken(_) => Packing(written, Fail(IoErr))
      case Complete(bytes) =>
        if digest(bytes) != sha1Sum then Packing(written, Fail(FileChanged(srcPath)))
        else Packing(written, Pass)
  }

  // ---------------------------------------------------------------------------
  // The packing loop
  // ---------------------------------------------------------------------------

  /** A source once its caller tried to open (and, for a directory, stat) it. */
  datatype Source = Unavailable | Available(isDir: bool, read: ReadOutcome)

  /** One iteration of a packing loop: the path reported on a hash mismatch,
      the opened source, and the name, expected hash and mode to write. */
  datatype Job = Job(srcPath: string, source: Source, destPath: string, sha1: string, mode: FileMode)

  /** A job that succeeds: its source opens, and it is a directory or a file
      whose complete content has the expected digest. */
  predicate JobPacks(job: Job, digest: Digest) {
    && job.source.Available?
    && (job.source.isDir || (job.source.read.Complete? && digest(job.source.read.bytes) == job.sha1))
  }

  /** The error of a job that does not succeed: a failed open, stat or read
      is a generic error, a completed copy with the wrong digest names the
      source path. */
  function JobError(job: Job, digest: Digest): Error
    requires !JobPacks(job, digest)
  {
    if job.source.Unavailable? || job.source.read.Broken? then IoErr else FileChanged(job.srcPath)
  }

  /** The entry a job with an open source writes. */
  function PackedEntry(job: Job): ZipEntry
    requires job.source.Available?
  {
    var s := job.source;
    ZipEntry(EntryName(s.isDir, job.destPath), Deflate, job.mode, if s.isDir then [] else s.read.Delivered())
  }

  /** Runs the jobs in order on a writer holding `w`, stopping at the first
      failure. Entries already written are never changed, and when every job
      succeeds each job's entry follows in job order. */
  function PackJobs(w: seq<ZipEntry>, jobs: seq<Job>, digest: Digest): (r: Packing)
    ensures |w| <= |r.written| <= |w| + |jobs| && r.written[..|w|] == w
    ensures r.outcome == Pass <==> forall i | 0 <= i < |jobs| :: JobPacks(jobs[i], digest)
    ensures r.outcome == Pass ==> |r.written| == |w| + |jobs|
    ensures r.outcome == Pass ==> forall i | 0 <= i < |jobs| :: r.written[|w| + i] == PackedEntry(jobs[i])
    decreases |jobs|
  {
    if |jobs| == 0 then Packing(w, Pass)
    else
      var job := jobs[0];
      match job.source
      case Unavailable => Packing(w, Fail(IoErr))
      case Available(isDir, read) =>
        var p := AddFileToZip(w, job.srcPath, isDir, read, job.destPath, job.sha1, job.mode, digest);
        if p.outcome.Fail? then p
        else
          var r := PackJobs(p.written, jobs[1..], digest);
          assert r.written[..|w|] == p.written[..|w|];
          r
  }

  /** One successful job: its entry is appended and the loop goes on with
      the remaining jobs. */
  lemma PackStep(w: seq<ZipEntry>, jobs: seq<Job>, digest: Digest)
    requires |jobs| > 0 && JobPacks(jobs[0], digest)
    ensures PackJobs(w, jobs, digest) == PackJobs(w + [PackedEntry(jobs[0])], jobs[1..], digest)
  {
  }

  /** The jobs that succeed before any failure each leave their own entry,
      in job order, right after the entries already written, whatever the
      later jobs do. */
  lemma {:induction false} PackKeepsEarlierEntries(w: seq<ZipEntry>, jobs: seq<Job>, digest: Digest, k: nat)
    requires k <= |jobs|
    requires forall j | 0 <= j < k :: JobPacks(jobs[j], digest)
    ensures |w| + k <= |PackJobs(w, jobs, digest).written|
    ensures forall j | 0 <= j < k :: PackJobs(w, jobs, digest).written[|w| + j] == PackedEntry(jobs[j])
    decreases k
  {
    if k > 0 {
      var w' := w + [PackedEntry(jobs[0])];
      PackStep(w, jobs, digest);
      PackKeepsEarlierEntries(w', jobs[1..], digest, k - 1);
      var r := PackJobs(w', jobs[1..], digest);
      forall j | 0 <= j < k
        ensures r.written[|w| + j] == PackedEntry(jobs[j])
      {
        if j == 0 {
          assert r.written[..|w'|][|w|] == w'[|w|];
        } else {
          assert jobs[1..][j - 1] == jobs[j];
          assert |w'| + (j - 1) == |w| + j;
        }
      }
    }
  }

  /** Nothing after the first failing job runs: the loop gives the same
      result on the jobs up to and including it. */
  lemma {:induction false} PackPrefixDecides(w: seq<ZipEntry>, jobs: seq<Job>, digest: Digest, k: nat)
    requires k < |jobs|
    requires forall j | 0 <= j < k :: JobPacks(jobs[j], digest)
    requires !JobPacks(jobs[k], digest)
    ensures PackJobs(w, jobs, digest) == PackJobs(w, jobs[..k + 1], digest)
    decreases k
  {
    var job := jobs[0];
    var prefix := jobs[..k + 1];
    assert prefix[0] == job;
    if k > 0 {
      var p := AddFileToZip(w, job.srcPath, job.source.isDir, job.source.read, job.destPath, job.sha1, job.mode, digest);
      assert JobPacks(job, digest);
      assert p.outcome == Pass;
      assert prefix[1..] == jobs[1..][..k];
      PackPrefixDecides(p.written, jobs[1..], digest, k - 1);
    }
  }

  /** The error and the writer's length at the first failing job. */
  lemma {:induction false} PackFailureOutcome(w: seq<ZipEntry>, jobs: seq<Job>, digest: Digest, k: nat)
    requires k < |jobs|
    requires forall j | 0 <= j < k :: JobPacks(jobs[j], digest)
    requires !JobPacks(jobs[k], digest)
    ensures PackJobs(w, jobs, digest).outcome == Fail(JobError(jobs[k], digest))
    ensures |PackJobs(w, jobs, digest).written| == |w| + k + (if jobs[k].source.Available? then 1 else 0)
    ensures jobs[k].source.Available? ==> PackJobs(w, jobs, digest).written[|w| + k] == PackedEntry(jobs[k])
    decreases k
  {
    var job := jobs[0];
    if k == 0 {
      if job.source.Available? {
        var p := AddFileToZip(w, job.srcPath, job.source.isDir, job.source.read, job.destPath, job.sha1, job.mode, digest);
        assert p.outcome.Fail?;
      }
    } else {
      var p := AddFileToZip(w, job.srcPath, job.source.isDir, job.source.read, job.destPath, job.sha1, job.mode, digest);
      assert JobPacks(job, digest);
      assert p.outcome == Pass;
      PackFailureOutcome(p.written, jobs[1..], digest, k - 1);
    }
  }

  /** The first failing job aborts the loop: nothing after it runs, the error
      is that job's error, and the writer holds the entries of the jobs
      before it, each job's own entry in order, plus the failing job's entry
      when its source opened. */
  lemma PackStopsAtFirstFailure(w: seq<ZipEntry>, jobs: seq<Job>, digest: Digest, k: nat)
    requires k < |jobs|
    requires forall j | 0 <= j < k :: JobPacks(jobs[j], digest)
    requires !JobPacks(jobs[k], digest)
    ensures PackJobs(w, jobs, digest) == PackJobs(w, jobs[..k + 1], digest)
    ensures PackJobs(w, jobs, digest).outcome == Fail(JobError(jobs[k], digest))
    ensures |PackJobs(w, jobs, digest).written| == |w| + k + (if jobs[k].source.Available? then 1 else 0)
    ensures jobs[k].source.Available? ==> PackJobs(w, jobs, digest).written[|w| + k] == PackedEntry(jobs[k])
    ensures forall j | 0 <= j < k :: PackJobs(w, jobs, digest).written[|w| + j] == PackedEntry(jobs[j])
  {
    PackPrefixDecides(w, jobs, digest, k);
    PackFailureOutcome(w, jobs, digest, k);
    PackKeepsEarlierEntries(w, jobs, digest, k);
  }

  /** What a packing entry point returns: the archive location, or the
      error (the location is then empty), plus what the writer holds. The
      partially written archive is left for the caller to discard. */
  datatype Zipped = Zipped(location: Result<string>, written: seq<ZipEntry>)

  function Finish(tempFile: string, p: Packing): Zipped {
    Zipped(if p.outcome.Pass? then Ok(tempFile) else Err(p.outcome.error), p.written)
  }

  // ---------------------------------------------------------------------------
  // ZipArchiveResources
  // ---------------------------------------------------------------------------

  /** The job for one entry of the source archive: it is written under its
      own name, with the expected hash and the mode of the include-list
      resource of that exact name, directories included. A name missing from
      the include list yields the zero resource: empty hash and mode 0. */
  function ArchiveJob(f: ArchiveFile, toInclude: seq<Resource>): Job {
    var res := Find(f.name, toInclude);
    var source := if f.stream.OpenFails? then Unavailable else Available(f.isDir, f.stream.read);
    Job(f.name, source, f.name, res.sha1, res.mode)
  }

  /** One job per source-archive entry, in archive order. */
  function ArchiveJobs(files: seq<ArchiveFile>, toInclude: seq<Resource>): seq<Job> {
    seq(|files|, i requires 0 <= i < |files| => ArchiveJob(files[i], toInclude))
  }

  /** An archive entry that packs: it opens, and it is a directory or a file
      whose content has the hash the include list gives for its name. */
  predicate ArchiveFilePacks(f: ArchiveFile, toInclude: seq<Resource>, digest: Digest) {
    && f.stream.Opened?
    && (f.isDir || (f.stream.read.Complete? && digest(f.stream.read.bytes) == Find(f.name, toInclude).sha1))
  }

  /** The entry written for a source-archive entry that opened. */
  function ArchivedEntry(f: ArchiveFile, toInclude: seq<Resource>): ZipEntry
    requires f.stream.Opened?
  {
    ZipEntry(EntryName(f.isDir, f.name), Deflate, Find(f.name, toInclude).mode,
             if f.isDir then [] else f.stream.read.Delivered())
  }

  /** Running the archive jobs succeeds exactly when every source entry
      packs, and then writes each entry's own `ArchivedEntry` in order. */
  lemma {:induction false} ArchivePacking(files: seq<ArchiveFile>, toInclude: seq<Resource>, digest: Digest)
    ensures var p := PackJobs([], ArchiveJobs(files, toInclude), digest);
            && (p.outcome == Pass <==> forall i | 0 <= i < |files| :: ArchiveFilePacks(files[i], toInclude, digest))
            && (p.outcome == Pass ==> |p.written| == |files|)
            && (p.outcome == Pass ==> forall i | 0 <= i < |files| ::
                  files[i].stream.Opened? && p.written[i] == ArchivedEntry(files[i], toInclude))
  {
    var jobs := ArchiveJobs(files, toInclude);
    var p := PackJobs([], jobs, digest);
    assert forall i | 0 <= i < |files| :: JobPacks(jobs[i], digest) <==> ArchiveFilePacks(files[i], toInclude, digest);
    if p.outcome == Pass {
      forall i | 0 <= i < |files|
        ensures files[i].stream.Opened? && p.written[i] == ArchivedEntry(files[i], toInclude)
      {
        assert JobPacks(jobs[i], digest);
        assert p.written[0 + i] == PackedEntry(jobs[i]);
      }
    }
  }

  /** ZipArchiveResources: iterates the SOURCE archive, not the include list,
      and writes one entry per source entry, in order, under the entry's own
      name. `tempFile` is the created temporary file (None when creating it
      failed). */
  function ZipArchiveResources(tempFile: Option<string>, archive: OpenedArchive, toInclude: seq<Resource>,
                               digest: Digest): (r: Zipped)
    ensures r.location.Ok? <==>
              && tempFile.Some? && archive.Listing?
              && forall i | 0 <= i < |archive.files| :: ArchiveFilePacks(archive.files[i], toInclude, digest)
    ensures r.location.Ok? ==> r.location.value == tempFile.value
    ensures r.location.Ok? ==> |r.written| == |archive.files|
    ensures r.location.Ok? ==> forall i | 0 <= i < |archive.files| ::
              archive.files[i].stream.Opened? && r.written[i] == ArchivedEntry(archive.files[i], toInclude)
    ensures r.location.Err? && (tempFile.None? || archive.Unreadable?) ==>
              r.location.error == IoErr && r.written == []
  {
    if tempFile.None? || archive.Unreadable? then Zipped(Err(IoErr), [])
    else
      ArchivePacking(archive.files, toInclude, digest);
      Finish(tempFile.value, PackJobs([], ArchiveJobs(archive.files, toInclude), digest))
  }

  /** The first source entry that does not pack decides the error: a failed
      open or read is a generic error, otherwise the hash mismatch names the
      entry. The writer holds the entries before it, plus its own when it
      opened. */
  lemma ZipArchiveFirstFailure(tempFile: string, files: seq<ArchiveFile>, toInclude: seq<Resource>,
                               digest: Digest, k: nat)
    requires k < |files|
    requires forall j | 0 <= j < k :: ArchiveFilePacks(files[j], toInclude, digest)
    requires !ArchiveFilePacks(files[k], toInclude, digest)
    ensures var r := ZipArchiveResources(Some(tempFile), Listing(files), toInclude, digest);
            && r.location == Err(if files[k].stream.OpenFails? || files[k].stream.read.Broken? then IoErr
                                 else FileChanged(files[k].name))
            && |r.written| == k + (if files[k].stream.Opened? then 1 else 0)
  {
    var jobs := ArchiveJobs(files, toInclude);
    assert forall j | 0 <= j < k :: JobPacks(jobs[j], digest);
    PackStopsAtFirstFailure([], jobs, digest, k);
  }

  /** A file entry of the source archive that the include list does not name
      is compared with the empty hash, which no digest equals: packing fails. */
  lemma UnlistedArchiveFileFails(tempFile: Option<string>, files: seq<ArchiveFile>, toInclude: seq<Resource>,
                                 digest: Digest, k: nat)
    requires k < |files| && !files[k].isDir
    requires forall j | 0 <= j < |toInclude| :: toInclude[j].filename != files[k].name
    ensures !ArchiveFilePacks(files[k], toInclude, digest)
    ensures ZipArchiveResources(tempFile, Listing(files), toInclude, digest).location.Err?
  {
  }

  /** Resources in the include list whose names no source entry carries change
      nothing: they are never written and never looked up. */
  lemma ZipArchiveIgnoresUnmatchedIncludes(tempFile: Option<string>, files: seq<ArchiveFile>,
                                           toInclude: seq<Resource>, more: seq<Resource>, digest: Digest)
    requires forall i, j | 0 <= i < |files| && 0 <= j < |more| :: more[j].filename != files[i].name
    ensures ZipArchiveResources(tempFile, Listing(files), toInclude + more, digest)
         == ZipArchiveResources(tempFile, Listing(files), toInclude, digest)
  {
    forall i | 0 <= i < |files|
      ensures Find(files[i].name, toInclude + more) == Find(files[i].name, toInclude)
    {
      FindAppend(files[i].name, toInclude, more);
    }
    assert ArchiveJobs(files, toInclude + more) == ArchiveJobs(files, toInclude);
  }

  // ---------------------------------------------------------------------------
  // ZipDirectoryResources
  // ---------------------------------------------------------------------------

  /** The source of one include-list resource: its full path opened and
      stat-ed on the host filesystem. */
  function DirectorySource(node: FsLookup): Source {
    match node
    case CannotOpen => Unavailable
    case CannotStat => Unavailable
    case Found(isDir, read) => Available(isDir, read)
  }

  /** The job for one include-list resource: opened at the full path joined
      from the source directory, written under the resource's own filename,
      with the resource's hash and mode. */
  function DirectoryJob(sourceDir: string, res: Resource, fs: FileSystem, join: (string, string) -> string): Job {
    var fullPath := join(sourceDir, res.filename);
    Job(fullPath, DirectorySource(fs(fullPath)), res.filename, res.sha1, res.mode)
  }

  /** One job per include-list resource, in list order. */
  function DirectoryJobs(sourceDir: string, toInclude: seq<Resource>, fs: FileSystem,
                         join: (string, string) -> string): seq<Job> {
    seq(|toInclude|, i requires 0 <= i < |toInclude| => DirectoryJob(sourceDir, toInclude[i], fs, join))
  }

  /** An include-list resource that packs: its full path opens and stats, and
      it is a directory or a file whose content has the resource's hash. */
  predicate ResourcePacks(sourceDir: string, res: Resource, fs: FileSystem,
                          join: (string, string) -> string, digest: Digest) {
    var node := fs(join(sourceDir, res.filename));
    node.Found? && (node.isDir || (node.read.Complete? && digest(node.read.bytes) == res.sha1))
  }

  /** The entry written for an include-list resource whose path opened. */
  function DirectoryEntry(res: Resource, node: FsLookup): ZipEntry
    requires node.Found?
  {
    ZipEntry(EntryName(node.isDir, res.filename), Deflate, res.mode, if node.isDir then [] else node.read.Delivered())
  }

  /** Running the directory jobs succeeds exactly when every resource packs,
      and then writes each resource's `DirectoryEntry` in list order. */
  lemma {:induction false} DirectoryPacking(sourceDir: string, toInclude: seq<Resource>, fs: FileSystem,
                                            join: (string, string) -> string, digest: Digest)
    ensures var p := PackJobs([], DirectoryJobs(sourceDir, toInclude, fs, join), digest);
            && (p.outcome == Pass <==>
                  forall i | 0 <= i < |toInclude| :: ResourcePacks(sourceDir, toInclude[i], fs, join, digest))
            && (p.outcome == Pass ==> |p.written| == |toInclude|)
            && (p.outcome == Pass ==> forall i | 0 <= i < |toInclude| ::
                  var node := fs(join(sourceDir, toInclude[i].filename));
                  node.Found? && p.written[i] == DirectoryEntry(toInclude[i], node))
  {
    var jobs := DirectoryJobs(sourceDir, toInclude, fs, join);
    var p := PackJobs([], jobs, digest);
    assert forall i | 0 <= i < |toInclude| ::
      JobPacks(jobs[i], digest) <==> ResourcePacks(sourceDir, toInclude[i], fs, join, digest);
    if p.outcome == Pass {
      forall i | 0 <= i < |toInclude|
        ensures var node := fs(join(sourceDir, toInclude[i].filename));
                node.Found? && p.written[i] == DirectoryEntry(toInclude[i], node)
      {
        assert JobPacks(jobs[i], digest);
        assert p.written[0 + i] == PackedEntry(jobs[i]);
      }
    }
  }

  /** ZipDirectoryResources: iterates the include list in order and writes
      each resource under its filename with its mode, checking its content
      against its hash. `join` is the host's path join. */
  function ZipDirectoryResources(tempFile: Option<string>, sourceDir: string, toInclude: seq<Resource>,
                                 fs: FileSystem, join: (string, string) -> string, digest: Digest): (r: Zipped)
    ensures r.location.Ok? <==>
              tempFile.Some? && forall i | 0 <= i < |toInclude| :: ResourcePacks(sourceDir, toInclude[i], fs, join, digest)
    ensures r.location.Ok? ==> r.location.value == tempFile.value
    ensures r.location.Ok? ==> |r.written| == |toInclude|
    ensures r.location.Ok? ==> forall i | 0 <= i < |toInclude| ::
              var node := fs(join(sourceDir, toInclude[i].filename));
              node.Found? && r.written[i] == DirectoryEntry(toInclude[i], node)
    ensures tempFile.None? ==> r == Zipped(Err(IoErr), [])
  {
    if tempFile.None? then Zipped(Err(IoErr), [])
    else
      DirectoryPacking(sourceDir, toInclude, fs, join, digest);
      Finish(tempFile.value, PackJobs([], DirectoryJobs(sourceDir, toInclude, fs, join), digest))
  }

  /** The first resource that does not pack decides the error: a path that
      cannot be opened, stat-ed or read is a generic error (never a hash
      mismatch); a hash mismatch names the JOINED full path, not the
      resource's relative filename. */
  lemma ZipDirectoryFirstFailure(tempFile: string, sourceDir: string, toInclude: seq<Resource>, fs: FileSystem,
                                 join: (string, string) -> string, digest: Digest, k: nat)
    requires k < |toInclude|
    requires forall j | 0 <= j < k :: ResourcePacks(sourceDir, toInclude[j], fs, join, digest)
    requires !ResourcePacks(sourceDir, toInclude[k], fs, join, digest)
    ensures var fullPath := join(sourceDir, toInclude[k].filename);
            var node := fs(fullPath);
            var r := ZipDirectoryResources(Some(tempFile), sourceDir, toInclude, fs, join, digest);
            && r.location == Err(if !node.Found? || node.read.Broken? then IoErr else FileChanged(fullPath))
            && |r.written| == k + (if node.Found? then 1 else 0)
  {
    var jobs := DirectoryJobs(sourceDir, toInclude, fs, join);
    assert forall j | 0 <= j < k :: JobPacks(jobs[j], digest);
    PackStopsAtFirstFailure([], jobs, digest, k);
  }

  // ---------------------------------------------------------------------------
  // Round trips between scanning and packing
  // ---------------------------------------------------------------------------

  /** Reading a written archive back through the archive reader: every entry
      opens and yields exactly the bytes written, its size is their count,
      and a name ending in '/' marks a directory. */
  function Reopen(written: seq<ZipEntry>): (files: seq<ArchiveFile>)
    ensures |files| == |written|
  {
    seq(|written|, i requires 0 <= i < |written| =>
      ArchiveFile(written[i].name, EndsWithSlash(written[i].name), |written[i].data|,
                  Opened(Complete(written[i].data))))
  }

  /** Packing a directory and scanning the resulting archive gives back, for
      every included resource in order, its name (with the directory slash)
      and, for a file, the hash it was packed with and the size of what was
      copied. Modes are not preserved: the archive scan gives files 0744. A
      file whose own name ends in '/' would read back as a directory, so the
      claim is made for files without one. The rescan runs on a host with
      separator `sep`; names must not hold it unless it is '/', as is the
      case for every name a directory scan produces. */
  lemma PackedDirectoryScansBack(tempFile: string, sourceDir: string, toInclude: seq<Resource>, fs: FileSystem,
                                 join: (string, string) -> string, digest: Digest, sep: char)
    requires ZipDirectoryResources(Some(tempFile), sourceDir, toInclude, fs, join, digest).location.Ok?
    requires forall i | 0 <= i < |toInclude| ::
               fs(join(sourceDir, toInclude[i].filename)).Found? && !fs(join(sourceDir, toInclude[i].filename)).isDir
               ==> !EndsWithSlash(toInclude[i].filename)
    requires sep == '/' || forall i | 0 <= i < |toInclude| :: sep !in toInclude[i].filename
    ensures var zipped := ZipDirectoryResources(Some(tempFile), sourceDir, toInclude, fs, join, digest);
            var scanned := Scan.GatherArchiveResources(Listing(Reopen(zipped.written)), sep, digest);
            && scanned.Ok?
            && |scanned.value.Items()| == |toInclude|
            && forall i | 0 <= i < |toInclude| ::
                 var node := fs(join(sourceDir, toInclude[i].filename));
                 var s := scanned.value.Items()[i];
                 && s.filename == EntryName(node.isDir, toInclude[i].filename)
                 && (node.isDir ==> s.sha1 == "" && s.size == 0 && s.mode == DefaultFolderPermissions)
                 && (!node.isDir ==> s.sha1 == toInclude[i].sha1 && s.size == |node.read.bytes|
                                     && s.mode == DefaultArchiveFilePermissions)
  {
    var zipped := ZipDirectoryResources(Some(tempFile), sourceDir, toInclude, fs, join, digest);
    forall i | 0 <= i < |toInclude|
      ensures ToSlash(zipped.written[i].name, sep) == zipped.written[i].name
    {
      var name := zipped.written[i].name;
      if sep != '/' {
        assert sep !in name by {
          assert sep !in toInclude[i].filename;
        }
        ToSlashWithoutSeparator(name, sep);
      }
    }
  }

  /** The host filesystem agrees with a directory walk from `root`: every
      path the scan accepts, other than the root, is found again at the join
      of the root and its slash-form relative path, with the same kind and,
      for a file, the same read outcome. */
  predicate FsMatchesWalk(root: string, walk: seq<WalkItem>, sep: char, fs: FileSystem,
                          join: (string, string) -> string) {
    forall i | 0 <= i < |walk| && DirectoryScan.Walkable(walk[i]) && !DirectoryScan.IsRoot(walk[i]) ::
      var node := fs(join(root, ToSlash(walk[i].relPath, sep)));
      && node.Found?
      && node.isDir == walk[i].visit.isDir
      && (!node.isDir ==> node.read == walk[i].visit.stream.read)
  }

  /** Every resource a directory scan collects packs from a filesystem that
      matches the walk: its joined path is found, and a file's content still
      has the digest recorded at scan time. The path found is a directory
      exactly when the resource has no hash. */
  lemma {:induction false} ScannedResourcesPack(root: string, walk: seq<WalkItem>, sep: char,
                                                fixMode: FileMode -> FileMode, fs: FileSystem,
                                                join: (string, string) -> string, digest: Digest)
    requires FsMatchesWalk(root, walk, sep, fs, join)
    ensures forall i | 0 <= i < |DirectoryScan.GatherDirectoryResources(walk, sep, fixMode, digest).resources.Items()| ::
              ResourcePacks(root, DirectoryScan.GatherDirectoryResources(walk, sep, fixMode, digest).resources.Items()[i],
                            fs, join, digest)
    ensures forall i | 0 <= i < |DirectoryScan.GatherDirectoryResources(walk, sep, fixMode, digest).resources.Items()| ::
              var res := DirectoryScan.GatherDirectoryResources(walk, sep, fixMode, digest).resources.Items()[i];
              fs(join(root, res.filename)).Found? && (fs(join(root, res.filename)).isDir <==> res.sha1 == "")
  {
    if |walk| > 0 && DirectoryScan.Walkable(walk[0]) {
      ScannedResourcesPack(root, walk[1..], sep, fixMode, fs, join, digest);
    }
  }

  /** Scanning a directory and packing the scan's own resource list from a
      filesystem that matches the walk always succeeds, with one entry per
      resource carrying the resource's mode. This holds for the partial list
      of a failed walk as well. */
  lemma ScannedDirectoryPacks(tempFile: string, root: string, walk: seq<WalkItem>, sep: char,
                              fixMode: FileMode -> FileMode, fs: FileSystem,
                              join: (string, string) -> string, digest: Digest)
    requires FsMatchesWalk(root, walk, sep, fs, join)
    ensures var items := DirectoryScan.GatherDirectoryResources(walk, sep, fixMode, digest).resources.Items();
            var r := ZipDirectoryResources(Some(tempFile), root, items, fs, join, digest);
            && r.location == Ok(tempFile)
            && |r.written| == |items|
            && forall i | 0 <= i < |items| :: r.written[i].mode == items[i].mode
  {
    ScannedResourcesPack(root, walk, sep, fixMode, fs, join, digest);
  }

  /** The directory round trip: scanning a directory, packing the scan's own
      resource list from a filesystem that matches the walk, and scanning the
      packed archive on the same host gives back every resource in order,
      under its name (a directory with its slash) and with its hash. Sizes
      agree too only if each file's stat size equals the length of its
      content, which the model, like the code, keeps independent; that case
      is `DirectoryRoundTripSizes`. */
  lemma DirectoryRoundTrip(tempFile: string, root: string, walk: seq<WalkItem>, sep: char,
                           fixMode: FileMode -> FileMode, fs: FileSystem,
                           join: (string, string) -> string, digest: Digest)
    requires FsMatchesWalk(root, walk, sep, fs, join)
    requires DirectoryScan.FileNamesWithoutTrailingSlash(walk, sep)
    ensures var items := DirectoryScan.GatherDirectoryResources(walk, sep, fixMode, digest).resources.Items();
            var zipped := ZipDirectoryResources(Some(tempFile), root, items, fs, join, digest);
            var rescan := Scan.GatherArchiveResources(Listing(Reopen(zipped.written)), sep, digest);
            && zipped.location == Ok(tempFile)
            && rescan.Ok?
            && |rescan.value.Items()| == |items|
            && forall i | 0 <= i < |items| ::
                 && rescan.value.Items()[i].sha1 == items[i].sha1
                 && rescan.value.Items()[i].filename == EntryName(items[i].sha1 == "", items[i].filename)
  {
    var items := DirectoryScan.GatherDirectoryResources(walk, sep, fixMode, digest).resources.Items();
    ScannedDirectoryPacks(tempFile, root, walk, sep, fixMode, fs, join, digest);
    ScannedResourcesPack(root, walk, sep, fixMode, fs, join, digest);
    DirectoryScanProperties.ScannedNames(walk, sep, fixMode, digest);
    PackedDirectoryScansBack(tempFile, root, items, fs, join, digest, sep);
  }

  /** The size each scanned resource records: 0 for a directory, and for a
      file, when stat sizes match content lengths, the length of the content
      found at its joined path. */
  lemma {:induction false} ScannedSizes(root: string, walk: seq<WalkItem>, sep: char,
                                        fixMode: FileMode -> FileMode, fs: FileSystem,
                                        join: (string, string) -> string, digest: Digest)
    requires FsMatchesWalk(root, walk, sep, fs, join)
    requires DirectoryScan.SizesMatchContent(walk)
    ensures forall i | 0 <= i < |DirectoryScan.GatherDirectoryResources(walk, sep, fixMode, digest).resources.Items()| ::
              var res := DirectoryScan.GatherDirectoryResources(walk, sep, fixMode, digest).resources.Items()[i];
              var node := fs(join(root, res.filename));
              && (res.sha1 == "" ==> res.size == 0)
              && (res.sha1 != "" ==> node.Found? && node.read.Complete? && res.size == |node.read.bytes|)
  {
    if |walk| > 0 && DirectoryScan.Walkable(walk[0]) {
      ScannedSizes(root, walk[1..], sep, fixMode, fs, join, digest);
    }
  }

  /** The directory round trip gives back sizes too when every file's stat
      size is the length of its content: each rescanned resource has the
      size the directory scan recorded. */
  lemma DirectoryRoundTripSizes(tempFile: string, root: string, walk: seq<WalkItem>, sep: char,
                                fixMode: FileMode -> FileMode, fs: FileSystem,
                                join: (string, string) -> string, digest: Digest)
    requires FsMatchesWalk(root, walk, sep, fs, join)
    requires DirectoryScan.FileNamesWithoutTrailingSlash(walk, sep)
    requires DirectoryScan.SizesMatchContent(walk)
    ensures var items := DirectoryScan.GatherDirectoryResources(walk, sep, fixMode, digest).resources.Items();
            var zipped := ZipDirectoryResources(Some(tempFile), root, items, fs, join, digest);
            var rescan := Scan.GatherArchiveResources(Listing(Reopen(zipped.written)), sep, digest);
            && rescan.Ok?
            && |rescan.value.Items()| == |items|
            && forall i | 0 <= i < |items| :: rescan.value.Items()[i].size == items[i].size
  {
    var items := DirectoryScan.GatherDirectoryResources(walk, sep, fixMode, digest).resources.Items();
    ScannedDirectoryPacks(tempFile, root, walk, sep, fixMode, fs, join, digest);
    ScannedResourcesPack(root, walk, sep, fixMode, fs, join, digest);
    ScannedSizes(root, walk, sep, fixMode, fs, join, digest);
    DirectoryScanProperties.ScannedNames(walk, sep, fixMode, digest);
    PackedDirectoryScansBack(tempFile, root, items, fs, join, digest, sep);
  }

  /** Scanning an archive and repacking it with the complete scan as the
      include list succeeds when entry names are distinct and already in
      slash form and every directory entry opens: each entry is written back
      with its own content, files with mode 0744 and directories with 0755.
      (With a repeated name the lookup returns the first entry's hash for
      both, and the second fails unless the contents agree.) */
  lemma ScannedArchiveRepacks(tempFile: string, files: seq<ArchiveFile>, sep: char, digest: Digest)
    requires Scan.GatherArchiveResources(Listing(files), sep, digest).Ok?
    requires forall i | 0 <= i < |files| :: ToSlash(files[i].name, sep) == files[i].name
    requires forall i, j | 0 <= i < j < |files| :: files[i].name != files[j].name
    requires forall i | 0 <= i < |files| :: files[i].isDir ==> files[i].stream.Opened?
    ensures var toInclude := Scan.GatherArchiveResources(Listing(files), sep, digest).value.Items();
            var r := ZipArchiveResources(Some(tempFile), Listing(files), toInclude, digest);
            && r.location == Ok(tempFile)
            && |r.written| == |files|
            && forall i | 0 <= i < |files| ::
                 && r.written[i].mode == (if files[i].isDir then DefaultFolderPermissions
                                          else DefaultArchiveFilePermissions)
                 && (!files[i].isDir ==> r.written[i].data == files[i].stream.read.bytes)
  {
    var toInclude := Scan.GatherArchiveResources(Listing(files), sep, digest).value.Items();
    forall i | 0 <= i < |files|
      ensures Find(files[i].name, toInclude) == toInclude[i]
      ensures ArchiveFilePacks(files[i], toInclude, digest)
    {
      assert toInclude[i].filename == files[i].name;
      forall j | 0 <= j < i
        ensures toInclude[j].filename != files[i].name
      {
        assert toInclude[j].filename == files[j].name;
      }
    }
  }
}
