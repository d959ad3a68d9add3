# Resource scanning and packing, modelled in Dafny

This project models the resource-bundling core of a deployment client: the
code that describes every file of an application payload (a directory or an
existing zip archive) as a resource, and the code that packs a chosen list of
resources into a new zip archive. The archive packer verifies each file's
content against the hash recorded at scan time, in the same pass that
copies it. It also models the three identifier case conversions of the
get-by-guid code generator.

Every operating-system and library call is replaced by the outcome it
produced, so each operation is a deterministic fold over a sequence:

- An archive is the list of its central-directory entries. Each entry has a
  name, a directory flag, a declared size and the result of opening and
  reading it. An archive that cannot be opened or validated is `Unreadable`.
- A directory walk is the list of paths the walk visits. The root is `"."`.
  Each path has the walk's error, or its directory flag, mode, size and the
  result of opening and reading it.
- The host filesystem used by the directory packer is a function from full
  path to the outcome of open and stat. The path join is a parameter too.
- SHA1 with hex formatting is a parameter `Digest`. Its result type is the
  non-empty strings, so the empty expected hash of a failed lookup never
  matches.
- `fixMode` (the on-disk mode normalisation) is a parameter.
- The temporary-file creation is an `Option` of the created file's name.
- The zip writer is the sequence of entries written so far. Each entry has a
  name, a compression method, a mode and the bytes copied.
- A Go slice is `Nil` or `Slice(elems)`, because the code distinguishes a
  nil slice from an empty one.
- Errors are `FileChanged(name)` or the generic `IoErr`.

Modules: `Errors` (failures, the FileChangedError message), `Strings`
(character replacement, `filepath.ToSlash`, the trailing-slash test),
`CaseConversion` (the code generator), `Resources` (the resource record, the
mode constants, `findInResources`, `actorToCCResources`), `Sources` (the
abstract inputs), `Scan` (the fingerprinting rule and the archive scanner),
`DirectoryScan` (the directory scanner), `DirectoryScanProperties` (facts
about the directory scan) and `Pack` (the per-entry writer, the packing loop,
the two packers, and the round trips between scanning and packing).

Three behaviours of the code are easy to miss, and the model keeps them:

- GatherDirectoryResources returns the resources collected so far together
  with the walk error, so a failed scan still hands back a partial list
  (actor/v2action/resource.go:115-119).
- ZipArchiveResources takes every entry's mode from the include-list lookup,
  directories included (actor/v2action/resource.go:150, 159). A directory the
  list does not name is therefore written with mode 0, not with the mode the
  archive gives it.
- The header of every entry, directories included, is given the Deflate
  method (actor/v2action/resource.go:249). That is the method the code asks
  for; the zip library then stores a directory entry, whose name ends in
  '/', uncompressed, and that encoding step is not modelled.

## Model

| member | source | states |
|---|---|---|
| `Errors.FileChangedMessage` | actor/v2action/resource.go:23-29 | the FileChangedError message names its file: parsing the message gives the filename back |
| `Errors.ParsedMessageIsFileChangedMessage` | actor/v2action/resource.go:27-29 | every message that parses is the message of the file it names, so different files never share a message |
| `Strings.ToSlash` | actor/v2action/resource.go:49 | slash conversion keeps the length, turns every host separator into '/', keeps every other character, and leaves no host separator behind when the separator is not '/' |
| `Strings.ToSlashInverse` | actor/v2action/resource.go:93 | converting slashes back to the host separator restores a relative path that had no '/' |
| `Strings.ReplaceAll` | api/cloudcontroller/ccv2/codegen/gen_get_by_guid.go:34 | replacing keeps the length, turns every occurrence of the old character into the new one, and keeps every other character |
| `Strings.ToSlashWithoutSeparator` | actor/v2action/resource.go:49 | a path holding no host separator is unchanged by slash conversion |
| `Strings.ReplaceAllInverse` | api/cloudcontroller/ccv2/codegen/gen_get_by_guid.go:34 | replacing '_' by '-' and back restores any string that had no '-' |
| `CaseConversion.ToLower` | api/cloudcontroller/ccv2/codegen/gen_get_by_guid.go:27 | lowering never yields an uppercase letter, maps 'A'..'Z' to 'a'..'z' and fixes everything else |
| `CaseConversion.SnakeCase` | api/cloudcontroller/ccv2/codegen/gen_get_by_guid.go:20-31 | the output is as long as the input plus one per uppercase letter after the first character, has no uppercase letter, and starts with the lowered first character |
| `CaseConversion.SnakeCasePositions` | api/cloudcontroller/ccv2/codegen/gen_get_by_guid.go:23-28 | character i > 0 lands after the underscores inserted before it, lowered, with '_' directly in front when it is uppercase |
| `CaseConversion.SnakeCaseIdentity` | api/cloudcontroller/ccv2/codegen/gen_get_by_guid.go:24-27 | a string with no uppercase letter is returned unchanged |
| `CaseConversion.SnakeCaseIdempotent` | api/cloudcontroller/ccv2/codegen/gen_get_by_guid.go:20-31 | converting to snake case twice is converting once |
| `CaseConversion.SnakeCaseWithoutUnderscores` | api/cloudcontroller/ccv2/codegen/gen_get_by_guid.go:24-27 | the only inserted characters are underscores: deleting them from the output of an underscore-free name gives the lowercased name |
| `CaseConversion.ToDashes` | api/cloudcontroller/ccv2/codegen/gen_get_by_guid.go:33-35 | the dashed form has the snake form's length, no '_' and no uppercase letter; each underscore of the snake form becomes '-' and every other character is kept |
| `CaseConversion.DashesToSnakeCase` | api/cloudcontroller/ccv2/codegen/gen_get_by_guid.go:33-35 | for a name without '-', turning the dashes back into underscores gives exactly the snake form |
| `CaseConversion.ToVarName` | api/cloudcontroller/ccv2/codegen/gen_get_by_guid.go:37-44 | needs a non-empty name; keeps the length and every character after the first, and the first character is the lowered first character of the input |
| `CaseConversion.VarNameFixedPoints` | api/cloudcontroller/ccv2/codegen/gen_get_by_guid.go:37-44 | the variable name differs from the input exactly when the input starts with an uppercase letter |
| `CaseConversion.VarNameIdempotent` | api/cloudcontroller/ccv2/codegen/gen_get_by_guid.go:37-44 | converting to a variable name twice is converting once |
| `CaseConversion.VarNameAgreesWithSnakeCase` | api/cloudcontroller/ccv2/codegen/gen_get_by_guid.go:37-44 | the variable name and the snake form share their first character, and coincide when no later character is uppercase |
| `Resources.Find` | actor/v2action/resource.go:285-295 | the lookup returns the first resource whose filename equals the path exactly, and the zero resource when none does |
| `Resources.FindHitOrZero` | actor/v2action/resource.go:285-295 | a lookup returns either a listed resource of that exact name or the zero resource (empty hash, size 0, mode 0); a miss is never an error |
| `Resources.FindAppend` | actor/v2action/resource.go:286-291 | appending resources does not change a lookup that already hits, nor one whose name the appended resources lack |
| `Resources.ActorToCCResources` | actor/v2action/resource.go:221-229 | the converted slice is never nil, even for a nil input, has one element per resource, and each converts back to its resource |
| `Scan.Fingerprint` | actor/v2action/resource.go:92-114 | a directory gets mode 0755, size 0 and no hash; a file gets the given mode, its size and its digest; the hash is empty exactly for directories |
| `Scan.GatherFiles` | actor/v2action/resource.go:48-71 | the entry loop succeeds exactly when every file entry opens and reads, and then yields one descriptor per entry in archive order; the slice is nil exactly when there are no entries |
| `Scan.GatherArchiveResources` | actor/v2action/resource.go:34-73 | an unreadable archive or any unreadable file entry gives a generic error; otherwise descriptor i has entry i's slash-normalised name, directories 0755 with no hash, files 0744 with their digest and declared size |
| `DirectoryScan.GatherDirectoryResources` | actor/v2action/resource.go:76-120 | the walk error is absent exactly when every visited path is accepted; then there is one resource per visited path other than the root; the slice is nil exactly when it is empty |
| `DirectoryScanProperties.GatherAppend` | actor/v2action/resource.go:78-117 | when every path of a first stretch of the walk is accepted, the walk's resources are those of that stretch followed by those of the rest |
| `DirectoryScanProperties.GatherDirectoryOrder` | actor/v2action/resource.go:88-115 | every non-root path visited before the first failure is described, in walk order, by its slash-normalised path with mode fixMode(mode) for files and 0755 for directories |
| `DirectoryScanProperties.GatherDirectoryStopsAtFirstFailure` | actor/v2action/resource.go:78-119 | at the first failing path the scan stops and returns the resources of the paths before it together with the error |
| `Pack.EntryName` | actor/v2action/resource.go:243-248 | a directory's header name ends in '/', with one '/' appended only when it did not already end in one; a file's name is unchanged |
| `Pack.EntryNameIdempotent` | actor/v2action/resource.go:243-246 | applying the directory rule again changes nothing; the original name is a prefix of the header name, at most one character shorter |
| `Pack.AddFileToZip` | actor/v2action/resource.go:231-283 | one entry is appended with the header name, Deflate and the given mode; a file entry holds exactly the bytes read; FileChanged(srcPath) is returned exactly when the copy completed with a digest other than the expected one, and a completed copy with the expected digest succeeds; a failed read is a generic error; directories are never checked |
| `Pack.PackJobs` | actor/v2action/resource.go:188-212 | the loop never alters earlier entries; it succeeds exactly when every job succeeds, and then writes one entry per job in order |
| `Pack.PackKeepsEarlierEntries` | actor/v2action/resource.go:157-164 | the jobs that succeed before any failure each leave their own entry, in job order, after the entries already written, whatever the later jobs do |
| `Pack.PackStopsAtFirstFailure` | actor/v2action/resource.go:157-164 | the first failing job ends the loop with that job's error and nothing after it runs; the writer holds each earlier job's own entry in order, plus the failing job's entry when its source opened |
| `Pack.ArchivePacking` | actor/v2action/resource.go:147-165 | the archive loop succeeds exactly when every source entry packs, and then writes each source entry in archive order |
| `Pack.ZipArchiveResources` | actor/v2action/resource.go:125-172 | one entry per SOURCE-archive entry, in order, under the entry's own name, with the mode of the include-list lookup; succeeds exactly when the temporary file and archive open and every entry packs, and then returns the temporary file's name |
| `Pack.ZipArchiveFirstFailure` | actor/v2action/resource.go:147-165 | the first entry that does not pack decides the error: generic for a failed open or read, otherwise FileChanged naming the archive entry |
| `Pack.UnlistedArchiveFileFails` | actor/v2action/resource.go:150-159 | a file entry the include list does not name is compared with the empty hash, so packing the archive fails |
| `Pack.ZipArchiveIgnoresUnmatchedIncludes` | actor/v2action/resource.go:147-150 | include-list resources whose names no source entry carries change nothing in the packed archive |
| `Pack.DirectoryPacking` | actor/v2action/resource.go:188-212 | the directory loop succeeds exactly when every resource packs, and then writes each resource in list order |
| `Pack.ZipDirectoryResources` | actor/v2action/resource.go:177-219 | one entry per include-list resource, in order, under its filename with its mode and the bytes at its joined path; succeeds exactly when the temporary file is created and every resource packs |
| `Pack.ZipDirectoryFirstFailure` | actor/v2action/resource.go:188-212 | the first resource that does not pack decides the error: a missing or unreadable path is generic, never FileChanged; a hash mismatch names the joined full path |
| `Pack.PackedDirectoryScansBack` | actor/v2action/resource.go:204-207 | scanning a packed directory archive on a host with any separator gives back every resource's name (directories with their slash), size 0 and no hash for directories, and, for files, the hash it was packed with and the size copied; modes are not preserved. It needs names free of the host separator (unless that is '/') and file names that do not end in '/' |
| `DirectoryScanProperties.ScannedNames` | actor/v2action/resource.go:92-94 | every name the directory scan produces is in slash form, and a file's name does not end in '/' when no visited file's relative path does |
| `Pack.ScannedResourcesPack` | actor/v2action/resource.go:92-115 | when the filesystem shows every visited path where the walk saw it, with the same kind and content, every resource the directory scan describes packs from that directory, and is found there as a directory exactly when it has no hash |
| `Pack.ScannedDirectoryPacks` | actor/v2action/resource.go:177-219 | under that consistency, packing the directory scan's list as include list succeeds, returns the temporary file and writes one entry per scanned resource with its mode; this holds also for the partial list of a failed walk |
| `Pack.DirectoryRoundTrip` | actor/v2action/resource.go:76-120 | scanning a directory, packing the scan's list from a matching filesystem and scanning the archive on the same host succeeds and gives back every resource in order, with its name (a directory with its slash) and its hash |
| `Pack.ScannedSizes` | actor/v2action/resource.go:105-113 | a scanned directory records size 0, and a scanned file, when stat sizes match content lengths, records the length of the content found at its joined path |
| `Pack.DirectoryRoundTripSizes` | actor/v2action/resource.go:76-120 | when every file's stat size is the length of its content, the directory round trip also gives back every resource's size |
| `Pack.ScannedArchiveRepacks` | actor/v2action/resource.go:147-165 | an archive with distinct slash-form names and openable directories repacks with its own scan as include list, writing each file's content back with mode 0744 and each directory with 0755 |

## Left out

- The zip format: header encoding, the external-attribute bits `SetMode`
  writes, and the central-directory validation done when the archive is
  opened. An archive is its entry list; a failed validation is `Unreadable`.
- SHA1 and hex formatting. They are the `Digest` parameter, whose only
  property is a non-empty result.
- `fixMode`, which is not part of this model. It is a parameter.
- Directory-walk order, `filepath.Rel` and `filepath.Join`. The walk is a
  given sequence and the join is a parameter. The relative-path failure of
  `filepath.Rel` cannot happen for the paths the walk yields and is not
  modelled.
- Opening, stat-ing and closing files, and the temporary file. Their outcomes
  are inputs. Closing, and the errors of the deferred closes (which the code
  ignores), are not modelled.
- Failures of the zip library's header construction and of creating an
  entry. The modelled writer never fails. The model records each header as
  the code fills it in; how the library then encodes it is not modelled.
- Logging, including the count of zipped files. It has no functional effect.
- The generator's `main`: template parsing, command-line arguments and file
  creation.
- Full Unicode case mapping, and the byte-versus-rune indexing of the
  variable-name conversion. The case conversions are modelled on ASCII.
- Pack.DirectoryRoundTrip: does not state that sizes come back, because the
  scan records a file's stat size while the packer copies its content, and
  the code never checks that the two agree. `Pack.DirectoryRoundTripSizes`
  states it under that extra condition.
- Resource sizes are unbounded naturals rather than 64-bit integers. No
  operation does arithmetic on them.
