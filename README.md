# Problem versioning and upload in the storage package

This project models the problem-versioning engine and the upload rules of the judge's
`storage` package (`storage/upload.go`) in Dafny, and proves what they promise.

- **Aggregate digest** (`joinHashes`). It copies the digest strings, sorts the copy with
  `sort.Strings`, feeds the sorted strings one after another into a single SHA-256 and returns
  the hex digest. It does not depend on the input order, and empty strings add nothing to it.
- **Test-case hash** (`testCaseHash`). It reads `hash.json` as a map from test-case name to
  digest and aggregates the map's values in Go's unspecified iteration order. The result depends
  only on the values. It fails when the file cannot be read or decoded.
- **Manifest** (`fileInfos`). Nine files:
  - three shared headers under `<root>/common`;
  - four required problem files under `<base>`;
  - two optional files under `<base>/grader` (`grader.cpp`, `solve.hpp`).
- **Version** (`version`). The aggregate of the test-case hash and one `fileHash` per manifest
  entry. An absent required file stops it with that file's read error. An absent optional file
  contributes `""`.
- **Upload target** (`NewUploadTarget`). It names the problem after `path.Base(base)` and
  carries its test-case hash and version.
- **File upload** (`UploadFiles`). It publishes every manifest file that is present to
  `v2/<name>/<version>/<path>` in the public bucket, in manifest order. An absent optional file
  is skipped. The first absent required file, or the first refused upload, stops it.
- **Test-case upload** (`UploadTestcases`). It walks `<base>/in`, then `<base>/out`.
  - A visited path containing `example` is published to `v2/<name>/<version>/<ext>/<file>`.
  - During the walk of `<base>/<ext>`, a visited file whose extension is `.<ext>` is packed
    into one archive as `<ext>/<file>`. A `.out` file under `<base>/in` is not packed, nor is a
    `.in` file under `<base>/out`.
  - The archive is then stored in the private bucket at `v2/<name>/<test-case hash>.tar.gz`.
  - The first error stops it.

## How the environment is represented

- **Strings.** Go strings and byte slices of digests and file contents are `Bytes`
  (`seq<byte>`). `sort.Strings` order is the bytewise `LessEq`. Paths and object keys are
  Dafny `string`s, and a digest inside a key is spelled with `AsText`.
- **Disk.** `FileSystem = map<string, Bytes>`. A path that is not a key is a file that cannot
  be read.
- **SHA-256 and JSON.** SHA-256 with `%x` formatting is a parameter `sha: Bytes -> Bytes`. The
  JSON decoding of `hash.json` is a parameter `decode`.
- **Object store.** A `Client` object holds the two buckets and the set of (bucket, key) puts
  the store refuses. Its `log` field records every stored object in order.
- **Directory walk.** `filepath.Walk` is a parameter `walk` giving the paths visited below a
  directory, in visiting order.
- **Go map iteration.** In the `range` loop of `testCaseHash` each step picks any remaining key
  (`:|`). Its result is proved equal to a deterministic specification.
- **Upload runs.** Both upload operations are specified as a run of steps (`Run`): publish a
  file, pack a file, store the archive, or report a missing required file. The first failing
  step ends the run with its error. Each method's postcondition ties the client's new log and
  the returned error to the run of the steps it is specified to take.

## Model

| member | source | states |
|---|---|---|
| Hashing.JoinHashes | storage/upload.go:252-262 | the result is SHA-256 of the ascending copy of the input, concatenated with no separators; the caller's slice is outside the method's frame, so it is left as it was |
| Sorting.SortStrings | storage/upload.go:255 | after sorting, the array holds the ascending arrangement of its former contents |
| Sorting.SortPermutationInvariant | storage/upload.go:253-255 | any two inputs with the same elements sort to the same sequence |
| Sorting.SortedArrangement | storage/upload.go:255 | an ascending sequence with the same elements as the input is the one sorting gives |
| Hashing.AggregatePermutationInvariant | storage/upload.go:252-261 | the aggregate digest is the same for any reordering of its inputs |
| Hashing.AggregateRotation | storage/upload.go:252-261 | example of the above: the digests [a, b, c] and [c, a, b] aggregate to the same version |
| Hashing.AggregateDropsEmpty | storage/upload.go:258-260 | empty strings written to the hash change nothing: the digest equals the one computed without them |
| Hashing.HashedBytesDetermineDigests | storage/upload.go:255-260 | for digests all of one non-zero width, two inputs feed the hash the same bytes exactly when they hold the same digests |
| Hashing.AggregateFramingCollision | storage/upload.go:258-260 | because no separator is written, inputs of mixed widths with different elements can feed identical bytes and give the same digest |
| Hashing.ConcatAppend | storage/upload.go:258-260 | writing two lists of strings one after the other feeds the bytes of the first list, then those of the second |
| Hashing.FileHash | storage/upload.go:244-250 | no error exactly when the file can be read, and then the file's digest; otherwise "" and the read error |
| Hashing.FileInfos | storage/upload.go:91-143 | nine entries; exactly the first seven required; the first three under root, the other six under base |
| Hashing.ManifestLayout | storage/upload.go:91-143 | nine entries; the first seven required; three under root, six under base; checker.cpp sixth, grader/grader.cpp and grader/solve.hpp last; no two entries share a path |
| Hashing.ManifestSpelled | storage/upload.go:91-143 | with each joined path written out, the manifest is exactly the nine entries common/fastio.h, common/random.h, common/testlib.h under root, then task.md, info.toml, checker.cpp, params.h (required) and grader/grader.cpp, grader/solve.hpp (optional) under base |
| Hashing.AppendValues | storage/upload.go:63-66 | in whatever order the map yields its keys, the loop appends every value once, after the existing elements |
| Hashing.ValuesRemove | storage/upload.go:64-66 | listing a map's values may start from any key and still gives the same collection |
| Hashing.TestCaseHash | storage/upload.go:53-68 | fails with NotFound when hash.json is absent and Malformed when decoding fails; otherwise returns the aggregate of the map's values |
| Hashing.TestCaseHashFails | storage/upload.go:54-61 | the test-case hash fails exactly when hash.json is absent or cannot be decoded, each with its own error |
| Hashing.CasesDigestIgnoresNames | storage/upload.go:58-67 | renaming a test case leaves the test-case hash unchanged |
| Hashing.AppendFileHashes | storage/upload.go:79-86 | stops with the read error of the first required entry that cannot be read; otherwise appends one digest per entry, "" for an absent optional file |
| Hashing.FirstMissingIs | storage/upload.go:79-84 | the entry the loop stops at is the first required entry that cannot be read |
| Hashing.Version | storage/upload.go:70-89 | returns the test-case hash's error, or the first missing required file's error, or the aggregate of the test-case hash and the nine per-entry digests |
| Hashing.VersionFails | storage/upload.go:73-84 | version fails exactly when the test-case hash fails or one of the seven required files is absent. The error is the test-case hash's, or else NotFound of a missing required file. An absent grader/grader.cpp or grader/solve.hpp never causes a failure |
| Hashing.VersionInputsShape | storage/upload.go:71-88 | on success version aggregates ten strings: the test-case hash, each required file's digest, and the digest or "" for each of grader/grader.cpp and grader/solve.hpp |
| Hashing.ReadableDigests | storage/upload.go:79-86 | for any manifest with no missing required file, the list is the test-case hash then one string per entry (the digest when the file exists, "" otherwise), and every required entry exists |
| Hashing.VersionSameAsSkipping | storage/upload.go:85 | appending "" for an absent optional file gives the same version as leaving it out |
| Hashing.EntryDigestsSkipAbsent | storage/upload.go:79-86 | the per-entry list with "" placeholders and the list of present files' digests agree once empty strings are removed |
| Hashing.NonEmptySplit | storage/upload.go:258-260 | an input splits into its non-empty strings and as many empty strings as it held |
| Hashing.VersionReadsOnlyItsFiles | storage/upload.go:70-143 | two disks that agree on hash.json and the nine manifest files give the same version outcome |
| Hashing.VersionDetectsChange | storage/upload.go:70-89 | under an injective SHA-256 whose digests of both disks' files and both test-case hashes have one width, two versions are equal exactly when the test-case hash and the present files' digests form the same collection |
| Hashing.AggregateDetectsChange | storage/upload.go:252-261 | under an injective SHA-256, two aggregates of inputs whose strings all have one width are equal exactly when their inputs hold the same digests |
| Hashing.VersionFindsRequired | storage/upload.go:79-84 | a successful version has found every required manifest file |
| Hashing.VersionNeedsTestCaseHash | storage/upload.go:73-77 | a successful version has a successful test-case hash, which is itself a SHA-256 output |
| Paths.BaseOfJoin | storage/upload.go:46 | path.Base of a directory joined with a slash-free name is that name |
| Paths.Join | storage/upload.go:80 | path.Join of a clean directory and a clean relative name that is not "." or ".." and does not begin with "../": an empty side yields the other, the root "/" gives "/" then the name, "." gives the name alone, and any other directory gives the directory, one slash, then the name |
| Paths.Base | storage/upload.go:46 | path.Base is never empty, holds no slash unless it is "/", and is "." for the empty path |
| Paths.Ext | storage/upload.go:167 | path.Ext is a suffix of the path that starts with its only dot and holds no slash, and it is "" exactly when the last element has no dot |
| Paths.ExtFromDot | storage/upload.go:167 | the extension is the suffix from a dot after which the path has no other dot and no slash |
| Paths.ExtOfDotted | storage/upload.go:167 | a name stem + "." + x, with no dot or slash in x, has extension "." + x whatever directory precedes it |
| Paths.Contains | storage/upload.go:161 | strings.Contains always finds the empty string and never a string longer than the text |
| Paths.ContainsAt | storage/upload.go:161 | strings.Contains finds the substring wherever it occurs |
| Paths.ContainsWitness | storage/upload.go:161 | every occurrence strings.Contains reports is a real one |
| Paths.ContainsInExtension | storage/upload.go:161 | a path that extends one containing the substring contains it too |
| Storage.NewUploadTarget | storage/upload.go:33-51 | fails with the test-case hash's or version's error; otherwise the target is named path.Base(base) and carries the hash and the version |
| Storage.TargetOfProblem | storage/upload.go:33-51 | for base = dir/name the target fails exactly when version fails, with the same error; otherwise it is named `name` |
| Storage.Client.PutObject | storage/upload.go:217 | a refused put reports UploadFailed and stores nothing; otherwise the payload is appended to the store |
| Storage.Client.FPutObject | storage/upload.go:162 | a file that cannot be read fails first, then a refused put; otherwise the file's bytes are appended to the store |
| Storage.UploadEntries | storage/upload.go:227-241 | the client's new log and the returned error are those of the manifest run: publish each present entry, skip absent optional ones, stop at the first absent required one or refused put |
| Storage.UploadFiles | storage/upload.go:224-242 | runs the manifest loop over fileInfos(base, root) |
| Storage.UploadFilesSucceeds | storage/upload.go:224-242 | UploadFiles succeeds exactly when the seven required files are present and no put of a present file is refused; it then stores each present file at v2/name/version/path, in manifest order, and nothing else |
| Storage.ManifestRun | storage/upload.go:227-239 | for any entries, the run succeeds exactly when every entry is present-or-optional with its put accepted, and then logs exactly the present files in order |
| Storage.EntryRun | storage/upload.go:228-238 | one entry's steps succeed exactly when UploadFiles gets past it, and then store its file if it is present |
| Storage.EntryFails | storage/upload.go:229-238 | an entry UploadFiles does not get past ends the run with RequiredFileMissing(base, path) for an absent file, or else UploadFailed for its refused key |
| Storage.ManifestRunStops | storage/upload.go:227-239 | the run stops at the first entry it does not get past, with that entry's error, having stored only the found files of the entries before it |
| Storage.UploadFilesStops | storage/upload.go:224-242 | UploadFiles stops at the first manifest entry it does not get past, with that entry's error; the files before it are stored in order and none after it |
| Storage.ManifestRunFailsOnlyOnUpload | storage/upload.go:229-237 | with no required file missing, only a refused put to the public bucket stops the loop |
| Storage.UploadFilesAfterNewTarget | storage/upload.go:33-51 | after a successful NewUploadTarget on the same disk, UploadFiles can fail only on a refused put to the public bucket, never on a missing required file |
| Storage.Visit | storage/upload.go:160-197 | the callback's effect and error are those of its steps: publish a path containing "example", then pack a "." + ext file as ext/name |
| Storage.PublishExample | storage/upload.go:161-165 | a path containing "example" is put in the public bucket at v2/name/version/ext/file; nothing happens otherwise |
| Storage.PublishRun | storage/upload.go:161-165 | the publish half fails exactly when an example path cannot be read or its put is refused, and otherwise logs the example |
| Storage.PackStep | storage/upload.go:167-195 | a "." + ext file is packed as ext/base-name, a missing one stops the walk, and other paths are passed over |
| Storage.PackedByExtension | storage/upload.go:167-195 | a visited dir/stem.ext file, such as base/in/01.in, is packed as ext/stem.ext when it is found, and stops the walk when it is missing |
| Storage.PackedAs | storage/upload.go:167-195 | a path with extension "." + ext and base name `name` is packed as ext/name, and stops the walk when it cannot be read |
| Storage.NotPackedByOtherExtension | storage/upload.go:167 | a visited dir/stem.x file with x other than ext, such as a .out file under base/in, is passed over by the pack half and never stops the walk |
| Storage.PackRun | storage/upload.go:167-195 | the pack half fails exactly when a "." + ext path cannot be read, and otherwise adds that file to the archive |
| Storage.PathRun | storage/upload.go:160-197 | the callback on one path succeeds exactly when the path passes both halves, and then publishes and packs it as due |
| Storage.WalkDir | storage/upload.go:160-199 | the walk of one directory calls the callback on each visited path in order and stops at its first error |
| Storage.WalkAll | storage/upload.go:159-200 | the walks of in and out run in turn into one archive, and the first error stops them |
| Storage.DirRun | storage/upload.go:160-199 | one directory's walk succeeds exactly when every visited path passes, and then has published its examples and packed its files in walk order |
| Storage.UploadTestcases | storage/upload.go:145-222 | the returned error and the client's new log are those of both walks followed by storing the archive in the private bucket |
| Storage.TwoWalksSucceed | storage/upload.go:159-219 | two walks and the archive succeed exactly when every visited path passes and the archive's put is accepted |
| Storage.TwoWalksLog | storage/upload.go:159-219 | a successful run logs both walks' examples, then one archive holding the first walk's files followed by the second's |
| Storage.UploadTestcasesSucceeds | storage/upload.go:145-222 | UploadTestcases succeeds exactly when every path both walks visit passes the callback and the archive's put is accepted. It then logs the examples of in, those of out, and last the archive at v2/name/hash.tar.gz with the .in files then the .out files |
| Storage.ExampleAnywhereInPath | storage/upload.go:161 | "example" is looked for in the whole path: every path below a directory whose path contains it is published |
| Storage.RunSucceeds | storage/upload.go:197-199 | a run from a clean state succeeds exactly when none of its steps fails |
| Storage.RunFailsAtFirst | storage/upload.go:197-199 | a failed run reports the error of its first failing step |
| Storage.FileKeyInjective | storage/upload.go:236 | for versions of one width, two problem-file keys are equal exactly when version and path are |
| Storage.FileKey | storage/upload.go:236 | a problem-file key starts with "v2/", ends with the file's manifest path, and is five characters longer than name, version and path together |
| Storage.ExampleKey | storage/upload.go:162 | an example's key is the problem-file key of the path "<ext>/<file>" under the same name and version |
| Storage.ArchiveKey | storage/upload.go:217 | the archive key starts with "v2/", ends with ".tar.gz", and is eleven characters longer than name and test-case hash together |
| Storage.ArchiveKeyInjective | storage/upload.go:217 | for hashes of one width, two archive keys are equal exactly when the test-case hashes are |
| Storage.ManifestKeysDistinct | storage/upload.go:227-237 | the nine manifest files go to nine different keys |
| Storage.ExampleKeyApartFromFiles | storage/upload.go:162 | a published example never takes the key of a manifest file of the same version |

## Left out

- The judge's task queue, submission locks and scheduler are not
  modelled: `database.PushTask` is not part of this model, and its only visible caller is
  `utils/rejudge.go`. Also left out are the database connection code, the API tests, the
  executor (`judge/executor/executor_core.cpp`) and the Python uploader.
- SHA-256 and `%x` formatting are one parameter function: the algorithm is not modelled.
  Properties that need collision resistance assume it explicitly: `sha` injective, and the
  digests being compared all of one width. No function is injective on all byte strings with
  one output width, so the width is required only of the digests in question (the two disks'
  files and the two test-case hashes). Hashing.DetectsChangeAssumptionsMet shows that these
  assumptions hold together for a disk of one-byte files, with the identity as `sha`.
- JSON decoding of `hash.json` is a parameter: only its success or failure and the map it
  yields matter.
- The source reads hash.json twice, once in NewUploadTarget and once inside version. The model
  does the same, and both reads see the same disk: a concurrent writer between them is not
  modelled.
- Paths.Join: `path.Join` is modelled for a clean directory (including "/" and ".") and a clean
  relative name that is not "." or ".." and does not begin with "../". `path.Clean` of anything
  else is not modelled: a rooted name ("a" and "/x" give "a//x" here, "a/x" in Go), a name
  beginning with "../" ("a" and "../x" give "a/../x" here, "x" in Go), a name "." or "..", a
  directory ending in a slash, repeated slashes, inner `..`. The code joins only hash.json, the
  manifest paths, "in" and "out" onto its directories, and none of them is of those forms.
- Sorting.SortStrings: `sort.Strings` is specified by its result, not by its algorithm.
- One disk map answers both `os.Stat` (upload.go:229) and `os.ReadFile`/`os.Open`
  (upload.go:245, the FPutObject calls): a path is either readable or absent. A path that
  `os.Stat` accepts but that cannot be read is not modelled. Examples are a directory and a file
  without read permission.
  - Storage.UploadFiles: for such a path the model takes the file as absent. An optional file is
    skipped, and a required one stops the run with RequiredFileMissing. Go instead calls
    FPutObject on it, which fails, and returns FPutObject's error.
  - Hashing.Version: for such a path version appends "" or stops with a read error, as Go
    does. The model names that error NotFound, where Go reports the permission error.
  - Storage.UploadTestcases: a visited directory whose path contains `example` or ends in
    `.in`/`.out` counts as an absent file, so the callback fails with NotFound. What Go's
    FPutObject and tar writer do with a directory is not modelled.
- Storage.UploadTestcases: the errors of creating, closing, seeking and stat-ing the temporary
  file, and of the tar and gzip writers, are not modelled, and neither is the archive's byte
  stream. The archive is modelled as its list of members (name and contents), with mode 0600 and
  the size implied.
- Storage.WalkAll: the order and errors of `filepath.Walk` are the `walk` parameter. The source's
  callback ignores the error argument that `filepath.Walk` passes for an unreadable or missing
  directory, so such a directory simply contributes whatever paths `walk` lists for it.
- Storage.Client.PutObject: MinIO put options, contexts and network failures are reduced to a
  fixed set of refused (bucket, key) pairs.
- Where the behaviour one would expect of version differs from what the code does, this model
  follows the code:
  - An absent optional file is not skipped: `""` is appended. Hashing.VersionSameAsSkipping
    proves the digest is the same either way.
  - version reports an absent required file with the read error (NotFound). RequiredFileMissing
    is used only by UploadFiles.
  - The version is order-independent over the multiset of digests, not over the set: a repeated
    digest counts twice.
