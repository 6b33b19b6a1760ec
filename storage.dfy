/**
 * The upload side of the storage package: building an upload target for a problem
 * directory (NewUploadTarget), publishing its files under a versioned key (UploadFiles)
 * and packing its test cases into one archive (UploadTestcases).
 *
 * Both upload operations are a run of small steps over an object-store client: each
 * step may fail, and the first failure ends the run with that error. `Run` states
 * that discipline once; each operation is specified by the steps it takes.
 */
module Storage {
  import opened ByteStrings
  import opened Environment
  import opened Hashing
  import Paths

  datatype Problem = Problem(name: string, testCaseHash: Bytes, version: Bytes)

  datatype UploadTarget = UploadTarget(base: string, root: string, problem: Problem)

  /** The target NewUploadTarget builds for the problem at `base`, or the error it stops with. */
  ghost function TargetOf(fs: FileSystem, base: string, root: string, decode: CaseDecoder, sha: HexSha256): Result<UploadTarget>
  {
    match TestCaseHashOf(fs, base, decode, sha)
    case Err(e) => Err(e)
    case Ok(h) =>
      match VersionOf(fs, base, root, decode, sha)
      case Err(e) => Err(e)
      case Ok(v) => Ok(UploadTarget(base, root, Problem(Paths.Base(base), h, v)))
  }

  /**
   * NewUploadTarget: the test-case hash and the version of the problem at `base`,
   * named after the last element of `base`; the first error of either stops it.
   */
  method NewUploadTarget(fs: FileSystem, base: string, root: string, decode: CaseDecoder, sha: HexSha256)
    returns (r: Result<UploadTarget>)
    ensures r == TargetOf(fs, base, root, decode, sha)
  {
    var h := TestCaseHash(fs, base, decode, sha);
    if h.Err? {
      return Err(h.error);
    }
    var v := Version(fs, base, root, decode, sha);
    if v.Err? {
      return Err(v.error);
    }
    return Ok(UploadTarget(base, root, Problem(Paths.Base(base), h.value, v.value)));
  }

  /**
   * NewUploadTarget fails exactly when version does, with version's error; otherwise the
   * problem at `dir/name` is called `name` and carries the test-case hash and the version.
   */
  lemma TargetOfProblem(fs: FileSystem, dir: string, name: string, root: string, decode: CaseDecoder, sha: HexSha256)
    requires name != "" && '/' !in name
    ensures var base := Paths.Join(dir, name);
      && (TargetOf(fs, base, root, decode, sha).Err? <==> VersionOf(fs, base, root, decode, sha).Err?)
      && (TargetOf(fs, base, root, decode, sha).Err? ==>
            TargetOf(fs, base, root, decode, sha).error == VersionOf(fs, base, root, decode, sha).error)
      && (TargetOf(fs, base, root, decode, sha).Ok? ==>
            TargetOf(fs, base, root, decode, sha).value ==
              UploadTarget(base, root, Problem(name, TestCaseHashOf(fs, base, decode, sha).value, VersionOf(fs, base, root, decode, sha).value)))
  {
    var base := Paths.Join(dir, name);
    Paths.BaseOfJoin(dir, name);
    if VersionOf(fs, base, root, decode, sha).Ok? {
      VersionNeedsTestCaseHash(fs, base, root, decode, sha);
    }
  }

  // ---------------------------------------------------------------------------
  // Object keys

  /** "v2/<name>/<version>/<path>": where UploadFiles puts a problem file. */
  function FileKey(name: string, version: Bytes, path: string): (k: string)
    ensures |k| == |name| + |version| + |path| + 5
    ensures k[..3] == "v2/" && k[|k| - |path|..] == path
  {
    "v2/" + name + "/" + AsText(version) + "/" + path
  }

  /** "v2/<name>/<version>/<ext>/<file>": where UploadTestcases publishes an example. */
  function ExampleKey(name: string, version: Bytes, ext: string, file: string): (k: string)
    ensures k == FileKey(name, version, ext + "/" + file)
  {
    "v2/" + name + "/" + AsText(version) + "/" + ext + "/" + file
  }

  /** "v2/<name>/<test-case hash>.tar.gz": where UploadTestcases puts the archive. */
  function ArchiveKey(name: string, testCaseHash: Bytes): (k: string)
    ensures |k| == |name| + |testCaseHash| + 11
    ensures k[..3] == "v2/" && k[|k| - 7..] == ".tar.gz"
  {
    "v2/" + name + "/" + AsText(testCaseHash) + ".tar.gz"
  }

  // ---------------------------------------------------------------------------
  // The object store

  /** One tar member: its header name and its bytes (mode 0600, size the length of the bytes). */
  datatype TarEntry = TarEntry(name: string, contents: Bytes)

  datatype Payload = File(contents: Bytes) | Archive(entries: seq<TarEntry>)

  datatype Upload = Upload(bucket: string, key: string, payload: Payload)

  /**
   * The object-store client: a private bucket for archives, a public one for files,
   * and the puts the store refuses. `log` is every object stored so far, in order.
   */
  class Client {
    const bucket: string
    const publicBucket: string
    const refused: set<(string, string)>
    var log: seq<Upload>

    constructor (bucket: string, publicBucket: string, refused: set<(string, string)>)
      ensures this.bucket == bucket && this.publicBucket == publicBucket && this.refused == refused
      ensures log == []
    {
      this.bucket := bucket;
      this.publicBucket := publicBucket;
      this.refused := refused;
      log := [];
    }

    /** PutObject: stores the payload under `key`, unless the store refuses that put. */
    method PutObject(bucket: string, key: string, payload: Payload) returns (err: Option<Error>)
      modifies this
      ensures (bucket, key) in refused ==> err == Some(UploadFailed(bucket, key)) && log == old(log)
      ensures (bucket, key) !in refused ==> err == None && log == old(log) + [Upload(bucket, key, payload)]
    {
      if (bucket, key) in refused {
        return Some(UploadFailed(bucket, key));
      }
      log := log + [Upload(bucket, key, payload)];
      return None;
    }

    /** FPutObject: stores the local file at `path`; a path that is not a readable file fails first. */
    method FPutObject(bucket: string, key: string, fs: FileSystem, path: string) returns (err: Option<Error>)
      modifies this
      ensures path !in fs ==> err == Some(NotFound(path)) && log == old(log)
      ensures path in fs && (bucket, key) in refused ==> err == Some(UploadFailed(bucket, key)) && log == old(log)
      ensures path in fs && (bucket, key) !in refused ==> err == None && log == old(log) + [Upload(bucket, key, File(fs[path]))]
    {
      if path !in fs {
        return Some(NotFound(path));
      }
      err := PutObject(bucket, key, File(fs[path]));
    }
  }

  // ---------------------------------------------------------------------------
  // Runs of upload steps

  datatype Step =
    | Missing(base: string, path: string)              // a required file os.Stat cannot find
    | Publish(bucket: string, key: string, path: string) // FPutObject of a local file
    | Pack(name: string, path: string)                 // a local file written into the archive
    | Store(bucket: string, key: string)               // PutObject of the archive built so far

  /** The client's log and the archive's members after some steps, and the error that stopped them. */
  datatype Outcome = Outcome(err: Option<Error>, log: seq<Upload>, entries: seq<TarEntry>)

  /** Why a step fails, if it does. */
  function StepError(c: Client, fs: FileSystem, s: Step): Option<Error>
  {
    match s
    case Missing(b, p) => Some(RequiredFileMissing(b, p))
    case Publish(b, k, p) =>
      if p !in fs then Some(NotFound(p))
      else if (b, k) in c.refused then Some(UploadFailed(b, k))
      else None
    case Pack(_, p) => if p !in fs then Some(NotFound(p)) else None
    case Store(b, k) => if (b, k) in c.refused then Some(UploadFailed(b, k)) else None
  }

  /** What a step that does not fail adds to the log or to the archive. */
  function Apply(c: Client, fs: FileSystem, o: Outcome, s: Step): Outcome
    requires StepError(c, fs, s).None?
  {
    match s
    case Missing(_, _) => o
    case Publish(b, k, p) => o.(log := o.log + [Upload(b, k, File(fs[p]))])
    case Pack(n, p) => o.(entries := o.entries + [TarEntry(n, fs[p])])
    case Store(b, k) => o.(log := o.log + [Upload(b, k, Archive(o.entries))])
  }

  /** The steps taken in order from `o`, up to and including the first that fails. */
  function Run(c: Client, fs: FileSystem, o: Outcome, steps: seq<Step>): Outcome
  {
    if steps == [] then o
    else
      var prev := Run(c, fs, o, steps[..|steps| - 1]);
      var s := steps[|steps| - 1];
      if prev.err.Some? then prev
      else match StepError(c, fs, s)
        case Some(e) => prev.(err := Some(e))
        case None => Apply(c, fs, prev, s)
  }

  /** One more step: nothing after a failure, the step's error, or its effect. */
  lemma RunStep(c: Client, fs: FileSystem, o: Outcome, steps: seq<Step>, s: Step)
    ensures var prev := Run(c, fs, o, steps);
      Run(c, fs, o, steps + [s]) ==
        if prev.err.Some? then prev
        else if StepError(c, fs, s).Some? then prev.(err := StepError(c, fs, s))
        else Apply(c, fs, prev, s)
  {
    assert (steps + [s])[..|steps|] == steps;
  }

  /** A run that has failed stays as it is. */
  lemma {:induction false} RunStops(c: Client, fs: FileSystem, o: Outcome, steps: seq<Step>)
    requires o.err.Some?
    ensures Run(c, fs, o, steps) == o
    decreases |steps|
  {
    if steps != [] {
      RunStops(c, fs, o, steps[..|steps| - 1]);
    }
  }

  /** Running `a` then `b` is running `a + b`. */
  lemma {:induction false} RunConcat(c: Client, fs: FileSystem, o: Outcome, a: seq<Step>, b: seq<Step>)
    ensures Run(c, fs, o, a + b) == Run(c, fs, Run(c, fs, o, a), b)
    decreases |b|
  {
    if b == [] {
      assert a + b == a;
    } else {
      var b' := b[..|b| - 1];
      assert (a + b)[..|a + b| - 1] == a + b';
      RunConcat(c, fs, o, a, b');
    }
  }

  /** A run from a clean state succeeds exactly when none of its steps fails. */
  lemma {:induction false} RunSucceeds(c: Client, fs: FileSystem, o: Outcome, steps: seq<Step>)
    requires o.err.None?
    ensures Run(c, fs, o, steps).err.None? <==> forall i :: 0 <= i < |steps| ==> StepError(c, fs, steps[i]).None?
    decreases |steps|
  {
    if steps != [] {
      var front := steps[..|steps| - 1];
      RunSucceeds(c, fs, o, front);
      assert forall i :: 0 <= i < |front| ==> front[i] == steps[i];
    }
  }

  /** A failed run reports the error of its first failing step. */
  lemma {:induction false} RunFailsAtFirst(c: Client, fs: FileSystem, o: Outcome, steps: seq<Step>) returns (k: nat)
    requires o.err.None? && Run(c, fs, o, steps).err.Some?
    ensures k < |steps| && Run(c, fs, o, steps).err == StepError(c, fs, steps[k])
    ensures forall j :: 0 <= j < k ==> StepError(c, fs, steps[j]).None?
    decreases |steps|
  {
    var front := steps[..|steps| - 1];
    if Run(c, fs, o, front).err.Some? {
      k := RunFailsAtFirst(c, fs, o, front);
    } else {
      RunSucceeds(c, fs, o, front);
      k := |steps| - 1;
    }
  }

  /** The steps `f` gives each element of `xs`, one element after another. */
  function FlatMap<X>(f: X -> seq<Step>, xs: seq<X>): seq<Step>
  {
    if xs == [] then [] else FlatMap(f, xs[..|xs| - 1]) + f(xs[|xs| - 1])
  }

  lemma {:induction false} FlatMapConcat<X>(f: X -> seq<Step>, a: seq<X>, b: seq<X>)
    ensures FlatMap(f, a + b) == FlatMap(f, a) + FlatMap(f, b)
    decreases |b|
  {
    if b == [] {
      assert a + b == a;
    } else {
      assert (a + b)[..|a + b| - 1] == a + b[..|b| - 1];
      FlatMapConcat(f, a, b[..|b| - 1]);
    }
  }

  /** Once the steps of the first `i` elements have failed, the later elements change nothing. */
  lemma RunStopsAt<X>(c: Client, fs: FileSystem, o: Outcome, f: X -> seq<Step>, xs: seq<X>, i: nat)
    requires i <= |xs|
    requires Run(c, fs, o, FlatMap(f, xs[..i])).err.Some?
    ensures Run(c, fs, o, FlatMap(f, xs)) == Run(c, fs, o, FlatMap(f, xs[..i]))
  {
    assert xs == xs[..i] + xs[i..];
    FlatMapConcat(f, xs[..i], xs[i..]);
    RunConcat(c, fs, o, FlatMap(f, xs[..i]), FlatMap(f, xs[i..]));
    RunStops(c, fs, Run(c, fs, o, FlatMap(f, xs[..i])), FlatMap(f, xs[i..]));
  }

  /** The steps of the first `i + 1` elements are those of the first `i`, then those of element `i`. */
  lemma FlatMapPrefix<X>(f: X -> seq<Step>, xs: seq<X>, i: nat)
    requires i < |xs|
    ensures FlatMap(f, xs[..i + 1]) == FlatMap(f, xs[..i]) + f(xs[i])
  {
    assert xs[..i + 1][..i] == xs[..i];
  }

  lemma FlatMapPair<X>(f: X -> seq<Step>, a: X, b: X)
    ensures FlatMap(f, [a, b]) == f(a) + f(b)
  {
    assert [a, b][..1] == [a] && [a][..0] == [];
    assert FlatMap(f, [a]) == f(a);
  }

  /** Storing the archive after a clean run logs it, holding the members packed so far. */
  lemma StoreLog(c: Client, fs: FileSystem, m: Outcome, key: string)
    requires m.err.None?
    ensures var r := Run(c, fs, m, [Store(c.bucket, key)]);
      r.err.None? ==> r.log == m.log + [Upload(c.bucket, key, Archive(m.entries))]
  {
    RunOne(c, fs, m, Store(c.bucket, key));
  }

  /** Publishing one local file: nothing after a failure, a missing file, a refused put, or the file logged. */
  lemma PublishOne(c: Client, fs: FileSystem, o: Outcome, b: string, k: string, p: string)
    ensures Run(c, fs, o, [Publish(b, k, p)]) ==
      if o.err.Some? then o
      else if p !in fs then o.(err := Some(NotFound(p)))
      else if (b, k) in c.refused then o.(err := Some(UploadFailed(b, k)))
      else o.(log := o.log + [Upload(b, k, File(fs[p]))])
  {
    RunOne(c, fs, o, Publish(b, k, p));
  }

  /** A single step run on its own. */
  lemma RunOne(c: Client, fs: FileSystem, o: Outcome, s: Step)
    ensures Run(c, fs, o, [s]) ==
      if o.err.Some? then o
      else if StepError(c, fs, s).Some? then o.(err := StepError(c, fs, s))
      else Apply(c, fs, o, s)
  {
    RunStep(c, fs, o, [], s);
    assert [] + [s] == [s];
  }

  // ---------------------------------------------------------------------------
  // UploadFiles

  /** The steps UploadFiles takes for one manifest entry. */
  function EntrySteps(t: UploadTarget, c: Client, fs: FileSystem, info: FileInfo): seq<Step>
  {
    var src := EntryPath(info);
    if src !in fs then (if info.required then [Missing(info.base, info.path)] else [])
    else [Publish(c.publicBucket, FileKey(t.problem.name, t.problem.version, info.path), src)]
  }

  /** The steps UploadFiles takes for the entries `infos`, in order. */
  function ManifestSteps(t: UploadTarget, c: Client, fs: FileSystem, infos: seq<FileInfo>): seq<Step>
  {
    FlatMap(info => EntrySteps(t, c, fs, info), infos)
  }

  /**
   * The manifest loop of UploadFiles: for each entry, a file that cannot be found is an
   * error when it is required and skipped otherwise; a found file is uploaded.
   */
  method UploadEntries(t: UploadTarget, c: Client, fs: FileSystem, infos: seq<FileInfo>) returns (err: Option<Error>)
    modifies c
    ensures Run(c, fs, Outcome(None, old(c.log), []), ManifestSteps(t, c, fs, infos)) == Outcome(err, c.log, [])
  {
    ghost var start := Outcome(None, c.log, []);
    for i := 0 to |infos|
      invariant Run(c, fs, start, ManifestSteps(t, c, fs, infos[..i])) == Outcome(None, c.log, [])
    {
      var info := infos[i];
      ghost var done := ManifestSteps(t, c, fs, infos[..i]);
      assert infos[..i + 1][..i] == infos[..i];
      assert ManifestSteps(t, c, fs, infos[..i + 1]) == done + EntrySteps(t, c, fs, info);
      RunConcat(c, fs, start, done, EntrySteps(t, c, fs, info));
      var src := Paths.Join(info.base, info.path);
      if src !in fs {
        if info.required {
          err := Some(RequiredFileMissing(info.base, info.path));
          RunStep(c, fs, start, done, Missing(info.base, info.path));
          RunStopsAt(c, fs, start, info => EntrySteps(t, c, fs, info), infos, i + 1);
          return;
        }
        assert EntrySteps(t, c, fs, info) == [];
        continue;
      }
      var key := FileKey(t.problem.name, t.problem.version, info.path);
      RunStep(c, fs, start, done, Publish(c.publicBucket, key, src));
      err := c.FPutObject(c.publicBucket, key, fs, src);
      if err.Some? {
        RunStopsAt(c, fs, start, info => EntrySteps(t, c, fs, info), infos, i + 1);
        return;
      }
    }
    assert infos[..|infos|] == infos;
    return None;
  }

  /**
   * UploadFiles: every manifest file that can be found goes to the public bucket under
   * "v2/<name>/<version>/<path>", in manifest order; a required file that cannot be found,
   * or a refused upload, stops it with that error.
   */
  method UploadFiles(t: UploadTarget, c: Client, fs: FileSystem) returns (err: Option<Error>)
    modifies c
    ensures Run(c, fs, Outcome(None, old(c.log), []), ManifestSteps(t, c, fs, FileInfos(t.base, t.root))) == Outcome(err, c.log, [])
  {
    err := UploadEntries(t, c, fs, FileInfos(t.base, t.root));
  }

  /** An entry UploadFiles gets past: its file is found or optional, and a found file's upload is accepted. */
  predicate EntryOk(t: UploadTarget, c: Client, fs: FileSystem, info: FileInfo)
  {
    && !MissingRequired(fs, info)
    && (EntryPath(info) in fs ==> (c.publicBucket, FileKey(t.problem.name, t.problem.version, info.path)) !in c.refused)
  }

  /** The object UploadFiles stores for one entry, when its file is found. */
  function EntryUploads(t: UploadTarget, c: Client, fs: FileSystem, info: FileInfo): seq<Upload>
  {
    var src := EntryPath(info);
    if src in fs then [Upload(c.publicBucket, FileKey(t.problem.name, t.problem.version, info.path), File(fs[src]))] else []
  }

  /** The objects UploadFiles stores for `infos` when nothing stops it: one per file found, in order. */
  function FileUploads(t: UploadTarget, c: Client, fs: FileSystem, infos: seq<FileInfo>): (us: seq<Upload>)
    ensures |us| <= |infos|
  {
    if infos == [] then []
    else FileUploads(t, c, fs, infos[..|infos| - 1]) + EntryUploads(t, c, fs, infos[|infos| - 1])
  }

  /** One entry's steps succeed exactly when UploadFiles gets past it, and then store its file if found. */
  lemma EntryRun(t: UploadTarget, c: Client, fs: FileSystem, o: Outcome, info: FileInfo)
    requires o.err.None?
    ensures Run(c, fs, o, EntrySteps(t, c, fs, info)).err.None? <==> EntryOk(t, c, fs, info)
    ensures Run(c, fs, o, EntrySteps(t, c, fs, info)).err.None? ==>
      Run(c, fs, o, EntrySteps(t, c, fs, info)) == o.(log := o.log + EntryUploads(t, c, fs, info))
  {
    var steps := EntrySteps(t, c, fs, info);
    if steps == [] {
      assert o.log + [] == o.log;
    } else {
      RunStep(c, fs, o, [], steps[0]);
      assert [] + [steps[0]] == steps;
    }
  }

  /**
   * The manifest run succeeds exactly when every entry is one UploadFiles gets past, and
   * then it has stored the found files and nothing else.
   */
  lemma {:induction false} ManifestRun(t: UploadTarget, c: Client, fs: FileSystem, o: Outcome, infos: seq<FileInfo>)
    requires o.err.None?
    ensures Run(c, fs, o, ManifestSteps(t, c, fs, infos)).err.None? <==>
      forall j :: 0 <= j < |infos| ==> EntryOk(t, c, fs, infos[j])
    ensures Run(c, fs, o, ManifestSteps(t, c, fs, infos)).err.None? ==>
      Run(c, fs, o, ManifestSteps(t, c, fs, infos)) == o.(log := o.log + FileUploads(t, c, fs, infos))
    decreases |infos|
  {
    if infos == [] {
      assert o.log + [] == o.log;
    } else {
      var front, info := infos[..|infos| - 1], infos[|infos| - 1];
      assert infos == front + [info];
      var head := ManifestSteps(t, c, fs, front);
      ManifestStepsSnoc(t, c, fs, infos);
      RunConcat(c, fs, o, head, EntrySteps(t, c, fs, info));
      ManifestRun(t, c, fs, o, front);
      var mid := Run(c, fs, o, head);
      if mid.err.None? {
        EntryRun(t, c, fs, mid, info);
        EntriesOkSnoc(t, c, fs, front, info);
        var fu, eu := FileUploads(t, c, fs, front), EntryUploads(t, c, fs, info);
        assert FileUploads(t, c, fs, infos) == fu + eu;
        AppendAssociative(o.log, fu, eu);
      } else {
        RunStops(c, fs, mid, EntrySteps(t, c, fs, info));
      }
    }
  }

  lemma EntriesOkSnoc(t: UploadTarget, c: Client, fs: FileSystem, front: seq<FileInfo>, info: FileInfo)
    ensures (forall j :: 0 <= j < |front + [info]| ==> EntryOk(t, c, fs, (front + [info])[j])) <==>
      (forall j :: 0 <= j < |front| ==> EntryOk(t, c, fs, front[j])) && EntryOk(t, c, fs, info)
  {
    assert forall j :: 0 <= j < |front| ==> (front + [info])[j] == front[j];
    assert (front + [info])[|front|] == info;
  }

  lemma ManifestStepsSnoc(t: UploadTarget, c: Client, fs: FileSystem, infos: seq<FileInfo>)
    requires infos != []
    ensures ManifestSteps(t, c, fs, infos)
      == ManifestSteps(t, c, fs, infos[..|infos| - 1]) + EntrySteps(t, c, fs, infos[|infos| - 1])
  {
  }

  /**
   * UploadFiles succeeds exactly when the seven required files are found and no upload of
   * a found file is refused; it then stores every found file and nothing else.
   */
  lemma UploadFilesSucceeds(t: UploadTarget, c: Client, fs: FileSystem, log: seq<Upload>)
    ensures var infos, o := FileInfos(t.base, t.root), Outcome(None, log, []);
      && (Run(c, fs, o, ManifestSteps(t, c, fs, infos)).err.None? <==>
            (forall i :: 0 <= i < 7 ==> EntryPath(infos[i]) in fs)
            && (forall i :: 0 <= i < 9 && EntryPath(infos[i]) in fs ==>
                  (c.publicBucket, FileKey(t.problem.name, t.problem.version, infos[i].path)) !in c.refused))
      && (Run(c, fs, o, ManifestSteps(t, c, fs, infos)).err.None? ==>
            Run(c, fs, o, ManifestSteps(t, c, fs, infos)).log == log + FileUploads(t, c, fs, infos))
  {
    var infos := FileInfos(t.base, t.root);
    ManifestLayout(t.base, t.root);
    ManifestRun(t, c, fs, Outcome(None, log, []), infos);
  }

  /** The error UploadFiles stops with at an entry it does not get past. */
  function EntryError(t: UploadTarget, c: Client, fs: FileSystem, info: FileInfo): Error
  {
    if EntryPath(info) !in fs then RequiredFileMissing(info.base, info.path)
    else UploadFailed(c.publicBucket, FileKey(t.problem.name, t.problem.version, info.path))
  }

  /** An entry UploadFiles does not get past ends the run with that entry's error. */
  lemma EntryFails(t: UploadTarget, c: Client, fs: FileSystem, o: Outcome, info: FileInfo)
    requires o.err.None? && !EntryOk(t, c, fs, info)
    ensures Run(c, fs, o, EntrySteps(t, c, fs, info)) == o.(err := Some(EntryError(t, c, fs, info)))
  {
    var steps := EntrySteps(t, c, fs, info);
    assert steps == [steps[0]];
    RunOne(c, fs, o, steps[0]);
  }

  /**
   * The manifest run stops at the first entry it does not get past, with that entry's error,
   * having stored the found files of the entries before it and nothing else.
   */
  lemma ManifestRunStops(t: UploadTarget, c: Client, fs: FileSystem, o: Outcome, infos: seq<FileInfo>, k: nat)
    requires o.err.None?
    requires k < |infos| && !EntryOk(t, c, fs, infos[k])
    requires forall j :: 0 <= j < k ==> EntryOk(t, c, fs, infos[j])
    ensures Run(c, fs, o, ManifestSteps(t, c, fs, infos))
      == Outcome(Some(EntryError(t, c, fs, infos[k])), o.log + FileUploads(t, c, fs, infos[..k]), o.entries)
  {
    var f := info => EntrySteps(t, c, fs, info);
    var front := infos[..k];
    var mid := Run(c, fs, o, FlatMap(f, front));
    assert mid == o.(log := o.log + FileUploads(t, c, fs, front)) by {
      assert forall j :: 0 <= j < |front| ==> EntryOk(t, c, fs, front[j]);
      ManifestRun(t, c, fs, o, front);
    }
    assert Run(c, fs, o, FlatMap(f, infos[..k + 1])) == mid.(err := Some(EntryError(t, c, fs, infos[k]))) by {
      FlatMapPrefix(f, infos, k);
      RunConcat(c, fs, o, FlatMap(f, front), f(infos[k]));
      EntryFails(t, c, fs, mid, infos[k]);
    }
    RunStopsAt(c, fs, o, f, infos, k + 1);
  }

  /**
   * UploadFiles stops at the first manifest entry it does not get past: a required file that is
   * not found reports RequiredFileMissing, a refused put reports UploadFailed. The files of the
   * entries before it are stored, in order, and nothing after it is.
   */
  lemma UploadFilesStops(t: UploadTarget, c: Client, fs: FileSystem, log: seq<Upload>, k: nat)
    requires k < 9
    requires !EntryOk(t, c, fs, FileInfos(t.base, t.root)[k])
    requires forall j :: 0 <= j < k ==> EntryOk(t, c, fs, FileInfos(t.base, t.root)[j])
    ensures var infos := FileInfos(t.base, t.root);
      Run(c, fs, Outcome(None, log, []), ManifestSteps(t, c, fs, infos))
        == Outcome(Some(EntryError(t, c, fs, infos[k])), log + FileUploads(t, c, fs, infos[..k]), [])
  {
    ManifestRunStops(t, c, fs, Outcome(None, log, []), FileInfos(t.base, t.root), k);
  }

  /** Without a required file missing, the manifest steps are uploads of files that are found. */
  lemma {:induction false} ManifestStepsPublish(t: UploadTarget, c: Client, fs: FileSystem, infos: seq<FileInfo>)
    requires forall j :: 0 <= j < |infos| ==> !MissingRequired(fs, infos[j])
    ensures forall s :: s in ManifestSteps(t, c, fs, infos) ==> s.Publish? && s.bucket == c.publicBucket && s.path in fs
    decreases |infos|
  {
    if infos != [] {
      var front := infos[..|infos| - 1];
      assert forall j :: 0 <= j < |front| ==> front[j] == infos[j];
      ManifestStepsPublish(t, c, fs, front);
    }
  }

  /** Without a required file missing, only a refused upload to the public bucket stops the manifest run. */
  lemma ManifestRunFailsOnlyOnUpload(t: UploadTarget, c: Client, fs: FileSystem, o: Outcome, infos: seq<FileInfo>)
    requires o.err.None?
    requires forall j :: 0 <= j < |infos| ==> !MissingRequired(fs, infos[j])
    ensures var r := Run(c, fs, o, ManifestSteps(t, c, fs, infos));
      r.err.Some? ==> r.err.value.UploadFailed? && r.err.value.bucket == c.publicBucket
  {
    var steps := ManifestSteps(t, c, fs, infos);
    ManifestStepsPublish(t, c, fs, infos);
    if Run(c, fs, o, steps).err.Some? {
      var k := RunFailsAtFirst(c, fs, o, steps);
      assert steps[k] in steps;
    }
  }

  /**
   * For a target NewUploadTarget built, UploadFiles on the same disk never reports a missing
   * required file: version has already read every one. Only a refused upload can stop it.
   */
  lemma UploadFilesAfterNewTarget(fs: FileSystem, base: string, root: string, decode: CaseDecoder, sha: HexSha256,
                                  c: Client, log: seq<Upload>)
    requires TargetOf(fs, base, root, decode, sha).Ok?
    ensures var t := TargetOf(fs, base, root, decode, sha).value;
      var r := Run(c, fs, Outcome(None, log, []), ManifestSteps(t, c, fs, FileInfos(base, root)));
      r.err.Some? ==> r.err.value.UploadFailed? && r.err.value.bucket == c.publicBucket
  {
    VersionFindsRequired(fs, base, root, decode, sha);
    ManifestRunFailsOnlyOnUpload(TargetOf(fs, base, root, decode, sha).value, c, fs, Outcome(None, log, []), FileInfos(base, root));
  }

  // ---------------------------------------------------------------------------
  // UploadTestcases

  /**
   * The steps the walk callback of UploadTestcases takes for one visited path of the `ext`
   * directory: a path containing "example" anywhere is published under its base name, and
   * a path whose extension is "." + ext is packed as "<ext>/<base name>".
   */
  function PathSteps(t: UploadTarget, c: Client, ext: string, fpath: string): seq<Step>
  {
    PublishSteps(t, c, ext, fpath) + PackSteps(ext, fpath)
  }

  function PublishSteps(t: UploadTarget, c: Client, ext: string, fpath: string): seq<Step>
  {
    if Paths.Contains(fpath, "example")
    then [Publish(c.publicBucket, ExampleKey(t.problem.name, t.problem.version, ext, Paths.Base(fpath)), fpath)]
    else []
  }

  function PackSteps(ext: string, fpath: string): seq<Step>
  {
    if Paths.Ext(fpath) == "." + ext then [Pack(ext + "/" + Paths.Base(fpath), fpath)] else []
  }

  /** The steps for every path the walk of one directory visits, in walk order. */
  function DirSteps(t: UploadTarget, c: Client, ext: string, paths: seq<string>): seq<Step>
  {
    FlatMap(fpath => PathSteps(t, c, ext, fpath), paths)
  }

  /** The steps for the walks of `<base>/<ext>` for each of `exts`, one directory after another. */
  function TestcaseSteps(t: UploadTarget, c: Client, walk: string -> seq<string>, exts: seq<string>): seq<Step>
  {
    FlatMap(ext => DirSteps(t, c, ext, walk(Paths.Join(t.base, ext))), exts)
  }

  /** Everything UploadTestcases does: both walks, then the archive stored in the private bucket. */
  function UploadTestcasesSteps(t: UploadTarget, c: Client, walk: string -> seq<string>): seq<Step>
  {
    TestcaseSteps(t, c, walk, ["in", "out"]) + [Store(c.bucket, ArchiveKey(t.problem.name, t.problem.testCaseHash))]
  }

  /**
   * The walk callback of UploadTestcases on one visited path: publish it if its path
   * contains "example", then pack it if its extension is "." + ext.
   */
  method Visit(t: UploadTarget, c: Client, fs: FileSystem, ext: string, fpath: string, entries: seq<TarEntry>)
    returns (err: Option<Error>, packed: seq<TarEntry>)
    modifies c
    ensures Run(c, fs, Outcome(None, old(c.log), entries), PathSteps(t, c, ext, fpath)) == Outcome(err, c.log, packed)
  {
    ghost var start := Outcome(None, c.log, entries);
    ghost var publish, pack := PublishSteps(t, c, ext, fpath), PackSteps(ext, fpath);
    RunConcat(c, fs, start, publish, pack);
    err := PublishExample(t, c, fs, ext, fpath, entries);
    ghost var mid := Outcome(err, c.log, entries);
    PackStep(c, fs, mid, ext, fpath);
    packed := entries;
    if err.Some? {
      return;
    }
    if Paths.Ext(fpath) == "." + ext {
      if fpath !in fs {
        return Some(NotFound(fpath)), packed;
      }
      packed := packed + [TarEntry(ext + "/" + Paths.Base(fpath), fs[fpath])];
    }
  }

  /** The first half of the callback: a path containing "example" is published under its base name. */
  method PublishExample(t: UploadTarget, c: Client, fs: FileSystem, ext: string, fpath: string, ghost entries: seq<TarEntry>)
    returns (err: Option<Error>)
    modifies c
    ensures Run(c, fs, Outcome(None, old(c.log), entries), PublishSteps(t, c, ext, fpath)) == Outcome(err, c.log, entries)
  {
    ghost var start := Outcome(None, c.log, entries);
    if Paths.Contains(fpath, "example") {
      var key := ExampleKey(t.problem.name, t.problem.version, ext, Paths.Base(fpath));
      PublishOne(c, fs, start, c.publicBucket, key, fpath);
      err := c.FPutObject(c.publicBucket, key, fs, fpath);
    } else {
      err := None;
    }
  }

  /** filepath.Walk of one directory: the callback on each visited path in turn, stopping at its first error. */
  method WalkDir(t: UploadTarget, c: Client, fs: FileSystem, ext: string, paths: seq<string>, entries: seq<TarEntry>)
    returns (err: Option<Error>, packed: seq<TarEntry>)
    modifies c
    ensures Run(c, fs, Outcome(None, old(c.log), entries), DirSteps(t, c, ext, paths)) == Outcome(err, c.log, packed)
  {
    packed := entries;
    ghost var start := Outcome(None, c.log, entries);
    ghost var f := fpath => PathSteps(t, c, ext, fpath);
    for j := 0 to |paths|
      invariant Run(c, fs, start, FlatMap(f, paths[..j])) == Outcome(None, c.log, packed)
    {
      FlatMapPrefix(f, paths, j);
      RunConcat(c, fs, start, FlatMap(f, paths[..j]), f(paths[j]));
      err, packed := Visit(t, c, fs, ext, paths[j], packed);
      if err.Some? {
        RunStopsAt(c, fs, start, f, paths, j + 1);
        return;
      }
    }
    assert paths[..|paths|] == paths;
    return None, packed;
  }

  /** The walks of `<base>/<ext>` for each of `exts` in turn, adding to one archive. */
  method WalkAll(t: UploadTarget, c: Client, fs: FileSystem, walk: string -> seq<string>, exts: seq<string>)
    returns (err: Option<Error>, entries: seq<TarEntry>)
    modifies c
    ensures Run(c, fs, Outcome(None, old(c.log), []), TestcaseSteps(t, c, walk, exts)) == Outcome(err, c.log, entries)
  {
    entries := [];
    ghost var start := Outcome(None, c.log, []);
    ghost var g := ext => DirSteps(t, c, ext, walk(Paths.Join(t.base, ext)));
    for e := 0 to |exts|
      invariant Run(c, fs, start, FlatMap(g, exts[..e])) == Outcome(None, c.log, entries)
    {
      var ext := exts[e];
      FlatMapPrefix(g, exts, e);
      RunConcat(c, fs, start, FlatMap(g, exts[..e]), g(ext));
      err, entries := WalkDir(t, c, fs, ext, walk(Paths.Join(t.base, ext)), entries);
      if err.Some? {
        RunStopsAt(c, fs, start, g, exts, e + 1);
        return;
      }
    }
    assert exts[..|exts|] == exts;
    return None, entries;
  }

  /**
   * UploadTestcases: walks `<base>/in` and `<base>/out` in turn, publishing examples to the
   * public bucket under the version and packing test-case files into one archive, then
   * stores the archive in the private bucket under the test-case hash. The first error stops it.
   */
  method UploadTestcases(t: UploadTarget, c: Client, fs: FileSystem, walk: string -> seq<string>) returns (err: Option<Error>)
    modifies c
    ensures Run(c, fs, Outcome(None, old(c.log), []), UploadTestcasesSteps(t, c, walk)).err == err
    ensures Run(c, fs, Outcome(None, old(c.log), []), UploadTestcasesSteps(t, c, walk)).log == c.log
  {
    ghost var start := Outcome(None, c.log, []);
    ghost var walks := TestcaseSteps(t, c, walk, ["in", "out"]);
    var key := ArchiveKey(t.problem.name, t.problem.testCaseHash);
    var entries;
    err, entries := WalkAll(t, c, fs, walk, ["in", "out"]);
    RunConcat(c, fs, start, walks, [Store(c.bucket, key)]);
    if err.Some? {
      RunStops(c, fs, Run(c, fs, start, walks), [Store(c.bucket, key)]);
      return;
    }
    RunOne(c, fs, Outcome(None, c.log, entries), Store(c.bucket, key));
    err := c.PutObject(c.bucket, key, Archive(entries));
  }

  /** A visited path the callback gets past: an example is found and accepted, a test-case file is found. */
  predicate PathOk(t: UploadTarget, c: Client, fs: FileSystem, ext: string, fpath: string)
  {
    PublishOk(t, c, fs, ext, fpath) && PackOk(fs, ext, fpath)
  }

  predicate PublishOk(t: UploadTarget, c: Client, fs: FileSystem, ext: string, fpath: string)
  {
    Paths.Contains(fpath, "example") ==>
      fpath in fs && (c.publicBucket, ExampleKey(t.problem.name, t.problem.version, ext, Paths.Base(fpath))) !in c.refused
  }

  predicate PackOk(fs: FileSystem, ext: string, fpath: string)
  {
    Paths.Ext(fpath) == "." + ext ==> fpath in fs
  }

  /** The example the callback publishes for a path that contains "example" and is found. */
  function PathExamples(t: UploadTarget, c: Client, fs: FileSystem, ext: string, fpath: string): seq<Upload>
  {
    if Paths.Contains(fpath, "example") && fpath in fs
    then [Upload(c.publicBucket, ExampleKey(t.problem.name, t.problem.version, ext, Paths.Base(fpath)), File(fs[fpath]))]
    else []
  }

  /** The archive member the callback adds for a "." + ext file that is found. */
  function PathArchived(fs: FileSystem, ext: string, fpath: string): seq<TarEntry>
  {
    if Paths.Ext(fpath) == "." + ext && fpath in fs then [TarEntry(ext + "/" + Paths.Base(fpath), fs[fpath])] else []
  }

  /**
   * A visited `<dir>/<stem>.<ext>` file, such as `<base>/in/01.in`, is packed as `<ext>/<stem>.<ext>`:
   * the callback fails when it is missing and otherwise adds it to the archive.
   */
  lemma PackedByExtension(fs: FileSystem, ext: string, dir: string, stem: string)
    requires '.' !in ext && '/' !in ext && '/' !in stem
    ensures var name := stem + "." + ext; var fpath := dir + "/" + name;
      && PackSteps(ext, fpath) == [Pack(ext + "/" + name, fpath)]
      && (PackOk(fs, ext, fpath) <==> fpath in fs)
      && PathArchived(fs, ext, fpath) == if fpath in fs then [TarEntry(ext + "/" + name, fs[fpath])] else []
  {
    var name := stem + "." + ext;
    Paths.ExtOfDotted(dir + "/", name, stem, ext);
    Paths.BaseAfterSlash(dir, name);
    PackedAs(fs, ext, dir + "/" + name, name);
  }

  /** A path whose extension is "." + ext and whose base name is `name` is packed as ext/name. */
  lemma PackedAs(fs: FileSystem, ext: string, fpath: string, name: string)
    requires Paths.Ext(fpath) == "." + ext && Paths.Base(fpath) == name
    ensures PackSteps(ext, fpath) == [Pack(ext + "/" + name, fpath)]
    ensures PackOk(fs, ext, fpath) <==> fpath in fs
    ensures PathArchived(fs, ext, fpath) == if fpath in fs then [TarEntry(ext + "/" + name, fs[fpath])] else []
  {
  }

  /** A visited file with another extension, such as a `.out` file under `<base>/in`, is never packed. */
  lemma NotPackedByOtherExtension(fs: FileSystem, ext: string, dir: string, stem: string, x: string)
    requires '.' !in x && '/' !in x && x != ext
    ensures var fpath := dir + "/" + (stem + "." + x);
      PackSteps(ext, fpath) == [] && PackOk(fs, ext, fpath) && PathArchived(fs, ext, fpath) == []
  {
    Paths.ExtOfDotted(dir + "/", stem + "." + x, stem, x);
    assert ("." + x)[1..] == x && ("." + ext)[1..] == ext;
  }

  /** The examples a walk publishes when nothing stops it: every visited path containing "example". */
  function Examples(t: UploadTarget, c: Client, fs: FileSystem, ext: string, paths: seq<string>): seq<Upload>
  {
    if paths == [] then []
    else Examples(t, c, fs, ext, paths[..|paths| - 1]) + PathExamples(t, c, fs, ext, paths[|paths| - 1])
  }

  /** The archive members a walk adds when nothing stops it: every visited "." + ext file, as "<ext>/<base name>". */
  function Archived(fs: FileSystem, ext: string, paths: seq<string>): seq<TarEntry>
  {
    if paths == [] then []
    else Archived(fs, ext, paths[..|paths| - 1]) + PathArchived(fs, ext, paths[|paths| - 1])
  }

  lemma PublishRun(t: UploadTarget, c: Client, fs: FileSystem, o: Outcome, ext: string, fpath: string)
    requires o.err.None?
    ensures Run(c, fs, o, PublishSteps(t, c, ext, fpath)).err.None? <==> PublishOk(t, c, fs, ext, fpath)
    ensures Run(c, fs, o, PublishSteps(t, c, ext, fpath)).err.None? ==>
      Run(c, fs, o, PublishSteps(t, c, ext, fpath)) == o.(log := o.log + PathExamples(t, c, fs, ext, fpath))
  {
    var publish := PublishSteps(t, c, ext, fpath);
    if Paths.Contains(fpath, "example") {
      var key := ExampleKey(t.problem.name, t.problem.version, ext, Paths.Base(fpath));
      PublishOne(c, fs, o, c.publicBucket, key, fpath);
    } else {
      assert publish == [];
      assert PathExamples(t, c, fs, ext, fpath) == [];
      assert o.log + [] == o.log;
    }
  }

  /** The second half of the callback: a "." + ext file is packed, or its absence stops the walk. */
  lemma PackStep(c: Client, fs: FileSystem, o: Outcome, ext: string, fpath: string)
    ensures Run(c, fs, o, PackSteps(ext, fpath)) ==
      if o.err.Some? || Paths.Ext(fpath) != "." + ext then o
      else if fpath !in fs then o.(err := Some(NotFound(fpath)))
      else o.(entries := o.entries + [TarEntry(ext + "/" + Paths.Base(fpath), fs[fpath])])
  {
    if Paths.Ext(fpath) == "." + ext {
      RunOne(c, fs, o, Pack(ext + "/" + Paths.Base(fpath), fpath));
    }
  }

  lemma PackRun(c: Client, fs: FileSystem, o: Outcome, ext: string, fpath: string)
    requires o.err.None?
    ensures Run(c, fs, o, PackSteps(ext, fpath)).err.None? <==> PackOk(fs, ext, fpath)
    ensures Run(c, fs, o, PackSteps(ext, fpath)).err.None? ==>
      Run(c, fs, o, PackSteps(ext, fpath)) == o.(entries := o.entries + PathArchived(fs, ext, fpath))
  {
    PackStep(c, fs, o, ext, fpath);
    assert o.entries + [] == o.entries;
  }

  /** The callback on one path succeeds exactly when the path is one it gets past, publishing and packing it as due. */
  lemma PathRun(t: UploadTarget, c: Client, fs: FileSystem, o: Outcome, ext: string, fpath: string)
    requires o.err.None?
    ensures Run(c, fs, o, PathSteps(t, c, ext, fpath)).err.None? <==> PathOk(t, c, fs, ext, fpath)
    ensures Run(c, fs, o, PathSteps(t, c, ext, fpath)).err.None? ==>
      Run(c, fs, o, PathSteps(t, c, ext, fpath)) ==
        o.(log := o.log + PathExamples(t, c, fs, ext, fpath), entries := o.entries + PathArchived(fs, ext, fpath))
  {
    var publish, pack := PublishSteps(t, c, ext, fpath), PackSteps(ext, fpath);
    RunConcat(c, fs, o, publish, pack);
    PublishRun(t, c, fs, o, ext, fpath);
    var mid := Run(c, fs, o, publish);
    if mid.err.None? {
      PackRun(c, fs, mid, ext, fpath);
    } else {
      RunStops(c, fs, mid, pack);
    }
  }

  /**
   * The walk of one directory succeeds exactly when every visited path is one the callback
   * gets past; it has then published the examples and packed the test-case files, in walk order.
   */
  lemma {:induction false} DirRun(t: UploadTarget, c: Client, fs: FileSystem, o: Outcome, ext: string, paths: seq<string>)
    requires o.err.None?
    ensures Run(c, fs, o, DirSteps(t, c, ext, paths)).err.None? <==>
      forall j :: 0 <= j < |paths| ==> PathOk(t, c, fs, ext, paths[j])
    ensures Run(c, fs, o, DirSteps(t, c, ext, paths)).err.None? ==>
      Run(c, fs, o, DirSteps(t, c, ext, paths)) ==
        o.(log := o.log + Examples(t, c, fs, ext, paths), entries := o.entries + Archived(fs, ext, paths))
    decreases |paths|
  {
    if paths == [] {
      assert o.log + [] == o.log && o.entries + [] == o.entries;
    } else {
      var front, p := paths[..|paths| - 1], paths[|paths| - 1];
      assert paths == front + [p];
      var head := DirSteps(t, c, ext, front);
      DirStepsSnoc(t, c, ext, paths);
      RunConcat(c, fs, o, head, PathSteps(t, c, ext, p));
      DirRun(t, c, fs, o, ext, front);
      var mid := Run(c, fs, o, head);
      if mid.err.None? {
        PathRun(t, c, fs, mid, ext, p);
        PathsOkSnoc(t, c, fs, ext, front, p);
        var ex, pe := Examples(t, c, fs, ext, front), PathExamples(t, c, fs, ext, p);
        var ar, pa := Archived(fs, ext, front), PathArchived(fs, ext, p);
        assert Examples(t, c, fs, ext, paths) == ex + pe && Archived(fs, ext, paths) == ar + pa;
        AppendAssociative(o.log, ex, pe);
        AppendAssociative(o.entries, ar, pa);
      } else {
        RunStops(c, fs, mid, PathSteps(t, c, ext, p));
      }
    }
  }

  lemma DirStepsSnoc(t: UploadTarget, c: Client, ext: string, paths: seq<string>)
    requires paths != []
    ensures DirSteps(t, c, ext, paths) == DirSteps(t, c, ext, paths[..|paths| - 1]) + PathSteps(t, c, ext, paths[|paths| - 1])
  {
  }

  lemma PathsOkSnoc(t: UploadTarget, c: Client, fs: FileSystem, ext: string, front: seq<string>, p: string)
    ensures (forall j :: 0 <= j < |front + [p]| ==> PathOk(t, c, fs, ext, (front + [p])[j])) <==>
      (forall j :: 0 <= j < |front| ==> PathOk(t, c, fs, ext, front[j])) && PathOk(t, c, fs, ext, p)
  {
    assert forall j :: 0 <= j < |front| ==> (front + [p])[j] == front[j];
    assert (front + [p])[|front|] == p;
  }

  lemma TestcaseStepsPair(t: UploadTarget, c: Client, walk: string -> seq<string>, e1: string, e2: string)
    ensures TestcaseSteps(t, c, walk, [e1, e2])
      == DirSteps(t, c, e1, walk(Paths.Join(t.base, e1))) + DirSteps(t, c, e2, walk(Paths.Join(t.base, e2)))
  {
    var g := ext => DirSteps(t, c, ext, walk(Paths.Join(t.base, ext)));
    FlatMapPair(g, e1, e2);
    assert g(e1) == DirSteps(t, c, e1, walk(Paths.Join(t.base, e1)));
    assert g(e2) == DirSteps(t, c, e2, walk(Paths.Join(t.base, e2)));
  }

  /** Two walks in turn succeed exactly when both do, publishing and packing in walk order. */
  lemma TwoDirsRun(t: UploadTarget, c: Client, fs: FileSystem, o: Outcome, e1: string, w1: seq<string>, e2: string, w2: seq<string>)
    requires o.err.None?
    ensures var r := Run(c, fs, o, DirSteps(t, c, e1, w1) + DirSteps(t, c, e2, w2));
      && (r.err.None? <==>
            (forall j :: 0 <= j < |w1| ==> PathOk(t, c, fs, e1, w1[j]))
            && (forall j :: 0 <= j < |w2| ==> PathOk(t, c, fs, e2, w2[j])))
      && (r.err.None? ==>
            r == o.(log := o.log + Examples(t, c, fs, e1, w1) + Examples(t, c, fs, e2, w2),
                    entries := o.entries + Archived(fs, e1, w1) + Archived(fs, e2, w2)))
  {
    var d1, d2 := DirSteps(t, c, e1, w1), DirSteps(t, c, e2, w2);
    RunConcat(c, fs, o, d1, d2);
    DirRun(t, c, fs, o, e1, w1);
    var m1 := Run(c, fs, o, d1);
    if m1.err.None? {
      DirRun(t, c, fs, m1, e2, w2);
    } else {
      RunStops(c, fs, m1, d2);
    }
  }

  /** Two walks in turn, then the archive: the run succeeds exactly when every step does. */
  lemma TwoWalksSucceed(t: UploadTarget, c: Client, fs: FileSystem, e1: string, w1: seq<string>, e2: string, w2: seq<string>, key: string, log: seq<Upload>)
    ensures var r := Run(c, fs, Outcome(None, log, []), DirSteps(t, c, e1, w1) + DirSteps(t, c, e2, w2) + [Store(c.bucket, key)]);
      r.err.None? <==>
        (forall j :: 0 <= j < |w1| ==> PathOk(t, c, fs, e1, w1[j]))
        && (forall j :: 0 <= j < |w2| ==> PathOk(t, c, fs, e2, w2[j]))
        && (c.bucket, key) !in c.refused
  {
    var o := Outcome(None, log, []);
    var walks := DirSteps(t, c, e1, w1) + DirSteps(t, c, e2, w2);
    RunConcat(c, fs, o, walks, [Store(c.bucket, key)]);
    TwoDirsRun(t, c, fs, o, e1, w1, e2, w2);
    var m := Run(c, fs, o, walks);
    if m.err.None? {
      RunOne(c, fs, m, Store(c.bucket, key));
    } else {
      RunStops(c, fs, m, [Store(c.bucket, key)]);
    }
  }

  /** A successful run of two walks and the archive stores the examples, then the archive of both walks' files. */
  lemma TwoWalksLog(t: UploadTarget, c: Client, fs: FileSystem, e1: string, w1: seq<string>, e2: string, w2: seq<string>, key: string, log: seq<Upload>)
    ensures var r := Run(c, fs, Outcome(None, log, []), DirSteps(t, c, e1, w1) + DirSteps(t, c, e2, w2) + [Store(c.bucket, key)]);
      r.err.None? ==>
        r.log == log + Examples(t, c, fs, e1, w1) + Examples(t, c, fs, e2, w2)
          + [Upload(c.bucket, key, Archive(Archived(fs, e1, w1) + Archived(fs, e2, w2)))]
  {
    var o := Outcome(None, log, []);
    var walks := DirSteps(t, c, e1, w1) + DirSteps(t, c, e2, w2);
    RunConcat(c, fs, o, walks, [Store(c.bucket, key)]);
    var m := Run(c, fs, o, walks);
    var r := Run(c, fs, o, walks + [Store(c.bucket, key)]);
    assert r == Run(c, fs, m, [Store(c.bucket, key)]);
    if m.err.Some? {
      RunStops(c, fs, m, [Store(c.bucket, key)]);
    } else if r.err.None? {
      var ar := Archived(fs, e1, w1) + Archived(fs, e2, w2);
      assert m.log == log + Examples(t, c, fs, e1, w1) + Examples(t, c, fs, e2, w2) && m.entries == ar by {
        TwoDirsRun(t, c, fs, o, e1, w1, e2, w2);
        assert [] + Archived(fs, e1, w1) + Archived(fs, e2, w2) == ar;
      }
      StoreLog(c, fs, m, key);
    }
  }

  /**
   * UploadTestcases succeeds exactly when every path both walks visit is one the callback gets
   * past and the archive is accepted; it has then published the examples of `in` and of `out`,
   * and last stored one archive holding the `.in` files of `in` and then the `.out` files of `out`.
   */
  lemma UploadTestcasesSucceeds(t: UploadTarget, c: Client, fs: FileSystem, walk: string -> seq<string>, log: seq<Upload>)
    ensures var ins, outs := walk(Paths.Join(t.base, "in")), walk(Paths.Join(t.base, "out"));
      var key := ArchiveKey(t.problem.name, t.problem.testCaseHash);
      var r := Run(c, fs, Outcome(None, log, []), UploadTestcasesSteps(t, c, walk));
      && (r.err.None? <==>
            (forall j :: 0 <= j < |ins| ==> PathOk(t, c, fs, "in", ins[j]))
            && (forall j :: 0 <= j < |outs| ==> PathOk(t, c, fs, "out", outs[j]))
            && (c.bucket, key) !in c.refused)
      && (r.err.None? ==>
            r.log == log + Examples(t, c, fs, "in", ins) + Examples(t, c, fs, "out", outs)
              + [Upload(c.bucket, key, Archive(Archived(fs, "in", ins) + Archived(fs, "out", outs)))])
  {
    var key := ArchiveKey(t.problem.name, t.problem.testCaseHash);
    var ins, outs := walk(Paths.Join(t.base, "in")), walk(Paths.Join(t.base, "out"));
    TestcaseStepsPair(t, c, walk, "in", "out");
    TwoWalksSucceed(t, c, fs, "in", ins, "out", outs, key, log);
    TwoWalksLog(t, c, fs, "in", ins, "out", outs, key, log);
  }

  /**
   * The callback looks for "example" in the whole path, not in the file name: below a directory
   * whose path contains "example", every visited path is published.
   */
  lemma ExampleAnywhereInPath(t: UploadTarget, c: Client, ext: string, dir: string, fpath: string)
    requires Paths.Contains(dir, "example")
    requires |dir| <= |fpath| && fpath[..|dir|] == dir
    ensures PublishSteps(t, c, ext, fpath)
      == [Publish(c.publicBucket, ExampleKey(t.problem.name, t.problem.version, ext, Paths.Base(fpath)), fpath)]
  {
    Paths.ContainsInExtension(dir, fpath, "example");
  }

  // ---------------------------------------------------------------------------
  // Key layout

  /** Problem files are keyed by version and path: equal keys (for digests of one width) mean the same version and path. */
  lemma FileKeyInjective(name: string, v: Bytes, p: string, v': Bytes, p': string)
    requires |v| == |v'|
    ensures FileKey(name, v, p) == FileKey(name, v', p') <==> v == v' && p == p'
  {
    if FileKey(name, v, p) == FileKey(name, v', p') {
      var k, k' := FileKey(name, v, p), FileKey(name, v', p');
      var n := 3 + |name| + 1;
      assert k[n..n + |v|] == AsText(v) && k'[n..n + |v|] == AsText(v');
      forall i | 0 <= i < |v| ensures v[i] == v'[i] {
        assert AsText(v)[i] == AsText(v')[i];
      }
      assert k[n + |v| + 1..] == p && k'[n + |v| + 1..] == p';
    }
  }

  /** Archives are keyed by test-case hash: equal keys (for digests of one width) mean the same hash. */
  lemma ArchiveKeyInjective(name: string, h: Bytes, h': Bytes)
    requires |h| == |h'|
    ensures ArchiveKey(name, h) == ArchiveKey(name, h') <==> h == h'
  {
    if ArchiveKey(name, h) == ArchiveKey(name, h') {
      var k, k' := ArchiveKey(name, h), ArchiveKey(name, h');
      var n := 3 + |name| + 1;
      assert k[n..n + |h|] == AsText(h) && k'[n..n + |h|] == AsText(h');
      forall i | 0 <= i < |h| ensures h[i] == h'[i] {
        assert AsText(h)[i] == AsText(h')[i];
      }
    }
  }

  /** The nine files of one UploadFiles go to nine different keys. */
  lemma ManifestKeysDistinct(name: string, v: Bytes, base: string, root: string)
    ensures var m := FileInfos(base, root);
      forall i, j :: 0 <= i < j < |m| ==> FileKey(name, v, m[i].path) != FileKey(name, v, m[j].path)
  {
    var m := FileInfos(base, root);
    ManifestLayout(base, root);
    forall i, j | 0 <= i < j < |m| ensures FileKey(name, v, m[i].path) != FileKey(name, v, m[j].path) {
      FileKeyInjective(name, v, m[i].path, v, m[j].path);
    }
  }

  /** A published example never lands on the key of a problem file of the same version. */
  lemma ExampleKeyApartFromFiles(name: string, v: Bytes, ext: string, file: string, base: string, root: string)
    requires ext == "in" || ext == "out"
    ensures var m := FileInfos(base, root);
      forall i :: 0 <= i < |m| ==> ExampleKey(name, v, ext, file) != FileKey(name, v, m[i].path)
  {
    var m, q := FileInfos(base, root), ext + "/" + file;
    ExamplePathApartFromFiles(ext, file, base, root);
    forall i | 0 <= i < |m| ensures ExampleKey(name, v, ext, file) != FileKey(name, v, m[i].path) {
      FileKeyInjective(name, v, q, v, m[i].path);
    }
  }

  lemma ExamplePathApartFromFiles(ext: string, file: string, base: string, root: string)
    requires ext == "in" || ext == "out"
    ensures var m := FileInfos(base, root);
      forall i :: 0 <= i < |m| ==> ext + "/" + file != m[i].path
  {
    var m, q := FileInfos(base, root), ext + "/" + file;
    ManifestSpelled(base, root);
    forall i | 0 <= i < |m| ensures q != m[i].path {
      assert q[0] != m[i].path[0] || q[2] != m[i].path[2];
    }
  }
}
