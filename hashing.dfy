/**
 * The problem-versioning engine of the storage package: the aggregate digest
 * (joinHashes), the test-case hash read from hash.json (testCaseHash), the fixed
 * manifest of problem files (fileInfos), the per-file digest (fileHash) and the
 * problem version built from all of them (version).
 */
module Hashing {
  import opened ByteStrings
  import opened Sorting
  import opened Environment
  import Paths

  /** One manifest entry: a file `path` under the directory `base`. */
  datatype FileInfo = FileInfo(base: string, path: string, required: bool)

  /** fileInfos: the shared headers under `root`, then the problem's own files under `base`. */
  function FileInfos(base: string, root: string): (m: seq<FileInfo>)
    ensures |m| == 9
    ensures forall i :: 0 <= i < |m| ==> (m[i].required <==> i < 7)
    ensures forall i :: 0 <= i < |m| ==> m[i].base == if i < 3 then root else base
  {
    [ FileInfo(root, Paths.Join("common", "fastio.h"), true),
      FileInfo(root, Paths.Join("common", "random.h"), true),
      FileInfo(root, Paths.Join("common", "testlib.h"), true),
      FileInfo(base, "task.md", true),
      FileInfo(base, "info.toml", true),
      FileInfo(base, "checker.cpp", true),
      FileInfo(base, "params.h", true),
      FileInfo(base, Paths.Join("grader", "grader.cpp"), false),
      FileInfo(base, Paths.Join("grader", "solve.hpp"), false) ]
  }

  /** Where a manifest entry lives on disk. */
  function EntryPath(info: FileInfo): string
  {
    Paths.Join(info.base, info.path)
  }

  /** The manifest: nine entries, the first seven required, the last two (under grader/) optional. */
  lemma ManifestLayout(base: string, root: string)
    ensures var m := FileInfos(base, root);
      && |m| == 9
      && (forall i :: 0 <= i < 9 ==> (m[i].required <==> i < 7))
      && (forall i :: 0 <= i < 3 ==> m[i].base == root)
      && (forall i :: 3 <= i < 9 ==> m[i].base == base)
      && m[5].path == "checker.cpp"
      && m[7].path == "grader/grader.cpp" && m[8].path == "grader/solve.hpp"
      && (forall i, j :: 0 <= i < j < 9 ==> m[i].path != m[j].path)
  {
    var m := FileInfos(base, root);
    ManifestSpelled(base, root);
    forall i, j | 0 <= i < j < 9 ensures m[i].path != m[j].path {
      var p, q := m[i].path, m[j].path;
      assert p[|p| - 3] != q[|q| - 3] || p[0] != q[0] || p[|p| - 4] != q[|q| - 4] || |p| != |q|;
    }
  }

  /** The manifest with its joined paths spelled out. */
  lemma ManifestSpelled(base: string, root: string)
    ensures FileInfos(base, root) ==
      [ FileInfo(root, "common/fastio.h", true), FileInfo(root, "common/random.h", true),
        FileInfo(root, "common/testlib.h", true), FileInfo(base, "task.md", true),
        FileInfo(base, "info.toml", true), FileInfo(base, "checker.cpp", true),
        FileInfo(base, "params.h", true), FileInfo(base, "grader/grader.cpp", false),
        FileInfo(base, "grader/solve.hpp", false) ]
  {
    JoinFastIO();
    JoinRandom();
    JoinTestlib();
    JoinGrader();
    JoinSolve();
  }

  // Each joined manifest path, spelled out on its own (together they crowd the solver).
  lemma JoinFastIO() ensures Paths.Join("common", "fastio.h") == "common/fastio.h" {}
  lemma JoinRandom() ensures Paths.Join("common", "random.h") == "common/random.h" {}
  lemma JoinTestlib() ensures Paths.Join("common", "testlib.h") == "common/testlib.h" {}
  lemma JoinGrader() ensures Paths.Join("grader", "grader.cpp") == "grader/grader.cpp" {}
  lemma JoinSolve() ensures Paths.Join("grader", "solve.hpp") == "grader/solve.hpp" {}

  /** fileHash: the hex SHA-256 of the file with no error, or "" with the read error. */
  function FileHash(fs: FileSystem, p: string, sha: HexSha256): (r: (Bytes, Option<Error>))
    ensures r.1.None? <==> p in fs
    ensures r.1.None? ==> r.0 == sha(fs[p])
    ensures r.1.Some? ==> r.0 == [] && r.1.value == NotFound(p)
  {
    if p in fs then (sha(fs[p]), None) else ([], Some(NotFound(p)))
  }

  // ---------------------------------------------------------------------------
  // joinHashes

  /** The bytes a running hash has been fed after each string of `parts` is written in turn. */
  function Concat(parts: seq<Bytes>): Bytes
  {
    if parts == [] then [] else Concat(parts[..|parts| - 1]) + parts[|parts| - 1]
  }

  lemma {:induction false} ConcatAppend(a: seq<Bytes>, b: seq<Bytes>)
    ensures Concat(a + b) == Concat(a) + Concat(b)
    decreases |b|
  {
    if b == [] {
      assert a + b == a;
    } else {
      var front, last := b[..|b| - 1], b[|b| - 1];
      assert (a + b)[..|a + b| - 1] == a + front && (a + b)[|a + b| - 1] == last;
      assert Concat(a + b) == Concat(a + front) + last;
      ConcatAppend(a, front);
      assert Concat(b) == Concat(front) + last;
    }
  }

  lemma ConcatSingle(x: Bytes)
    ensures Concat([x]) == x
  {
    assert [x][..0] == [];
  }

  /** The digest joinHashes returns: SHA-256 of the ascending digests written back to back. */
  function Aggregate(sha: HexSha256, hashes: seq<Bytes>): Bytes
  {
    sha(Concat(Sort(hashes)))
  }

  /**
   * joinHashes: sorts a fresh copy of the caller's slice and writes it into one
   * running hash. The caller's array is not in the method's frame.
   */
  method JoinHashes(hashes: array<Bytes>, sha: HexSha256) returns (digest: Bytes)
    ensures digest == Aggregate(sha, hashes[..])
  {
    var arr := new Bytes[hashes.Length];
    forall i | 0 <= i < hashes.Length {
      arr[i] := hashes[i];
    }
    assert arr[..] == hashes[..];
    SortStrings(arr);
    var written: Bytes := [];
    for i := 0 to arr.Length
      invariant written == Concat(arr[..i])
    {
      assert arr[..i + 1][..i] == arr[..i];
      written := written + arr[i];
    }
    assert arr[..arr.Length] == arr[..];
    digest := sha(written);
  }

  /** The aggregate digest does not depend on the order of its inputs. */
  lemma AggregatePermutationInvariant(sha: HexSha256, xs: seq<Bytes>, ys: seq<Bytes>)
    requires multiset(xs) == multiset(ys)
    ensures Aggregate(sha, xs) == Aggregate(sha, ys)
  {
    SortPermutationInvariant(xs, ys);
  }

  /** The three-digest instance: [a, b, c] and [c, a, b] give the same digest. */
  lemma AggregateRotation(sha: HexSha256, a: Bytes, b: Bytes, c: Bytes)
    ensures Aggregate(sha, [a, b, c]) == Aggregate(sha, [c, a, b])
  {
    assert multiset([a, b, c]) == multiset([c, a, b]);
    AggregatePermutationInvariant(sha, [a, b, c], [c, a, b]);
  }

  /** The input with every empty string taken out. */
  function NonEmpty(xs: seq<Bytes>): (ys: seq<Bytes>)
    ensures forall y :: y in ys ==> y != []
  {
    if xs == [] then []
    else if xs[0] == [] then NonEmpty(xs[1..])
    else [xs[0]] + NonEmpty(xs[1..])
  }

  function Empties(n: nat): (e: seq<Bytes>)
    ensures |e| == n && forall i :: 0 <= i < n ==> e[i] == []
  {
    if n == 0 then [] else [[]] + Empties(n - 1)
  }

  lemma {:induction false} ConcatEmpties(n: nat)
    ensures Concat(Empties(n)) == []
  {
    if n > 0 {
      assert Empties(n) == Empties(n - 1) + [[]];
      ConcatEmpties(n - 1);
      ConcatAppend(Empties(n - 1), [[]]);
    }
  }

  /** How many of the strings of a list are empty. */
  function EmptyCount(xs: seq<Bytes>): (n: nat)
    ensures n == multiset(xs)[[]]
  {
    if xs == [] then 0
    else
      assert xs == [xs[0]] + xs[1..];
      (if xs[0] == [] then 1 else 0) + EmptyCount(xs[1..])
  }

  /** The strings of a list are its non-empty ones together with as many empty ones as it holds. */
  predicate SplitsIntoEmpties(xs: seq<Bytes>)
  {
    multiset(xs) == multiset(NonEmpty(xs)) + multiset(Empties(EmptyCount(xs)))
  }

  lemma {:induction false} NonEmptySplit(xs: seq<Bytes>)
    ensures SplitsIntoEmpties(xs)
  {
    if xs != [] {
      NonEmptySplit(xs[1..]);
      if xs[0] == [] {
        SplitsAfterEmpty(xs);
      } else {
        SplitsAfterNonEmpty(xs);
      }
    }
  }

  lemma SplitsAfterEmpty(xs: seq<Bytes>)
    requires xs != [] && xs[0] == [] && SplitsIntoEmpties(xs[1..])
    ensures SplitsIntoEmpties(xs)
  {
    var x, t := xs[0], xs[1..];
    var n := EmptyCount(t);
    var rest := multiset(NonEmpty(t));
    assert multiset(xs) == multiset{x} + multiset(t) by {
      assert xs == [x] + t;
    }
    assert multiset(Empties(EmptyCount(xs))) == multiset{x} + multiset(Empties(n)) by {
      EmptiesCons(n);
    }
    calc {
      multiset(xs);
      multiset{x} + (rest + multiset(Empties(n)));
      { SwapFront(multiset{x}, rest, multiset(Empties(n))); }
      rest + (multiset{x} + multiset(Empties(n)));
      multiset(NonEmpty(xs)) + multiset(Empties(EmptyCount(xs)));
    }
  }

  lemma SwapFront<T>(a: multiset<T>, b: multiset<T>, c: multiset<T>)
    ensures a + (b + c) == b + (a + c)
  {
  }

  lemma SplitsAfterNonEmpty(xs: seq<Bytes>)
    requires xs != [] && xs[0] != [] && SplitsIntoEmpties(xs[1..])
    ensures SplitsIntoEmpties(xs)
  {
    var x, t := xs[0], xs[1..];
    var n := EmptyCount(t);
    var rest := multiset(NonEmpty(t));
    assert multiset(xs) == multiset{x} + multiset(t) by {
      assert xs == [x] + t;
    }
    calc {
      multiset(xs);
      multiset{x} + (rest + multiset(Empties(n)));
      (multiset{x} + rest) + multiset(Empties(n));
      { assert NonEmpty(xs) == [x] + NonEmpty(t); }
      multiset(NonEmpty(xs)) + multiset(Empties(EmptyCount(xs)));
    }
  }

  lemma EmptiesCons(n: nat)
    ensures multiset(Empties(n + 1)) == multiset{[]} + multiset(Empties(n))
  {
    assert Empties(n + 1) == [[]] + Empties(n);
  }

  lemma SortedAfterEmpties(n: nat, rest: seq<Bytes>)
    requires Sorted(rest)
    ensures Sorted(Empties(n) + rest)
  {
    var s := Empties(n) + rest;
    forall i, j | 0 <= i < j < |s| ensures LessEq(s[i], s[j]) {
      if i < n {
        assert s[i] == [];
      } else {
        assert s[i] == rest[i - n] && s[j] == rest[j - n];
      }
    }
  }

  lemma SortedWithoutEmpties(xs: seq<Bytes>)
    ensures Sort(xs) == Empties(EmptyCount(xs)) + Sort(NonEmpty(xs))
  {
    var front, rest := Empties(EmptyCount(xs)), Sort(NonEmpty(xs));
    SortedAfterEmpties(EmptyCount(xs), rest);
    SplitArrangement(xs);
    SortedArrangement(xs, front + rest);
  }

  lemma SplitArrangement(xs: seq<Bytes>)
    ensures multiset(Empties(EmptyCount(xs)) + Sort(NonEmpty(xs))) == multiset(xs)
  {
    NonEmptySplit(xs);
    assert multiset(Sort(NonEmpty(xs))) == multiset(NonEmpty(xs));
  }

  /** Empty strings feed no bytes: dropping them leaves the digest unchanged. */
  lemma AggregateDropsEmpty(sha: HexSha256, xs: seq<Bytes>)
    ensures Aggregate(sha, xs) == Aggregate(sha, NonEmpty(xs))
  {
    var n := EmptyCount(xs);
    var front, rest := Empties(n), Sort(NonEmpty(xs));
    SortedWithoutEmpties(xs);
    ConcatAppend(front, rest);
    ConcatEmpties(n);
    assert Concat(front + rest) == Concat(rest);
    assert Concat(Sort(xs)) == Concat(rest);
  }

  /** When every digest has the same non-zero width, the fed bytes spell out the digests. */
  lemma {:induction false} ConcatFixedWidth(a: seq<Bytes>, b: seq<Bytes>, w: nat)
    requires w > 0
    requires forall x :: x in a ==> |x| == w
    requires forall x :: x in b ==> |x| == w
    requires Concat(a) == Concat(b)
    ensures a == b
    decreases |a|
  {
    if a != [] && b != [] {
      var a', b' := a[..|a| - 1], b[..|b| - 1];
      var x, y := a[|a| - 1], b[|b| - 1];
      assert x in a && y in b;
      var n := |Concat(a)|;
      assert Concat(a) == Concat(a') + x && Concat(b) == Concat(b') + y;
      assert x == Concat(a)[n - w..] && y == Concat(b)[n - w..];
      assert Concat(a') == Concat(a)[..n - w] == Concat(b');
      assert forall z :: z in a' ==> z in a;
      assert forall z :: z in b' ==> z in b;
      ConcatFixedWidth(a', b', w);
      assert a == a' + [x] && b == b' + [y];
    }
  }

  /**
   * For digests of one fixed width, two inputs feed the hash the same bytes
   * exactly when they hold the same digests, whatever their order.
   */
  lemma HashedBytesDetermineDigests(xs: seq<Bytes>, ys: seq<Bytes>, w: nat)
    requires w > 0
    requires forall x :: x in xs ==> |x| == w
    requires forall y :: y in ys ==> |y| == w
    ensures Concat(Sort(xs)) == Concat(Sort(ys)) <==> multiset(xs) == multiset(ys)
  {
    if Concat(Sort(xs)) == Concat(Sort(ys)) {
      forall x | x in Sort(xs) ensures |x| == w {
        assert x in multiset(Sort(xs));
      }
      forall y | y in Sort(ys) ensures |y| == w {
        assert y in multiset(Sort(ys));
      }
      ConcatFixedWidth(Sort(xs), Sort(ys), w);
    }
    if multiset(xs) == multiset(ys) {
      SortPermutationInvariant(xs, ys);
    }
  }

  /**
   * Without separators the digest cannot tell inputs of different widths apart:
   * for bytes p < q < r, the digests "pq", "r" and "p", "qr" feed the same bytes.
   */
  lemma AggregateFramingCollision(sha: HexSha256, p: byte, q: byte, r: byte)
    requires p < q < r
    ensures var xs: seq<Bytes>, ys: seq<Bytes> := [[p, q], [r]], [[p], [q, r]];
      multiset(xs) != multiset(ys) && Aggregate(sha, xs) == Aggregate(sha, ys)
  {
    var xs: seq<Bytes> := [[p, q], [r]];
    var ys: seq<Bytes> := [[p], [q, r]];
    assert xs[0] in multiset(xs) && xs[0] !in multiset(ys);
    SortedPairBytes([p, q], [r]);
    SortedPairBytes([p], [q, r]);
    assert [p, q] + [r] == [p] + [q, r];
  }

  /** Two digests already in order are fed as they are. */
  lemma SortedPairBytes(x: Bytes, y: Bytes)
    requires LessEq(x, y)
    ensures Concat(Sort([x, y])) == x + y
  {
    SortPair(x, y);
    ConcatPair(x, y);
  }

  lemma SortPair(x: Bytes, y: Bytes)
    requires LessEq(x, y)
    ensures Sort([x, y]) == [x, y]
  {
    SortedUnique(Sort([x, y]), [x, y]);
  }

  lemma ConcatPair(x: Bytes, y: Bytes)
    ensures Concat([x, y]) == x + y
  {
    ConcatAppend([x], [y]);
    assert [x, y] == [x] + [y];
    ConcatSingle(x);
    ConcatSingle(y);
  }

  // ---------------------------------------------------------------------------
  // testCaseHash

  /** The values of a map, listed in one fixed but unspecified order. */
  ghost function Values(m: map<string, Bytes>): (vs: seq<Bytes>)
    ensures |vs| == |m|
    decreases |m|
  {
    if m == map[] then []
    else
      var k := SomeKey(m);
      assert (m - {k}).Keys == m.Keys - {k};
      [m[k]] + Values(m - {k})
  }

  ghost function SomeKey(m: map<string, Bytes>): (k: string)
    requires m != map[]
    ensures k in m
  {
    var k :| k in m; k
  }

  /** Listing a map's values may start from any key. */
  lemma {:induction false} ValuesRemove(m: map<string, Bytes>, k: string)
    requires k in m
    ensures multiset(Values(m)) == multiset{m[k]} + multiset(Values(m - {k}))
    decreases |m|
  {
    var k0 := SomeKey(m);
    var a := m - {k0};
    assert Values(m) == [m[k0]] + Values(a);
    if k0 != k {
      var b := m - {k};
      RemoveBoth(m, k0, k);
      ValuesRemove(a, k);
      ValuesRemove(b, k0);
    }
  }

  /** Removing two different keys in either order leaves the same map. */
  lemma RemoveBoth(m: map<string, Bytes>, k0: string, k: string)
    requires k0 in m && k in m && k0 != k
    ensures |m - {k0}| < |m| && |m - {k}| < |m|
    ensures k in m - {k0} && (m - {k0})[k] == m[k]
    ensures k0 in m - {k} && (m - {k})[k0] == m[k0]
    ensures (m - {k0}) - {k} == (m - {k}) - {k0}
  {
    assert (m - {k0}).Keys == m.Keys - {k0} && (m - {k}).Keys == m.Keys - {k};
  }

  /** testCaseHash's outcome: the digest of hash.json's values, or why hash.json was refused. */
  ghost function TestCaseHashOf(fs: FileSystem, base: string, decode: CaseDecoder, sha: HexSha256): Result<Bytes>
  {
    var p := Paths.Join(base, "hash.json");
    if p !in fs then Err(NotFound(p))
    else match decode(fs[p])
      case None => Err(Malformed(p))
      case Some(cases) => Ok(Aggregate(sha, Values(cases)))
  }

  /**
   * The `range` loop of testCaseHash: appends every value of `cases`, visiting the
   * keys in an order the map does not fix (each step may pick any key left).
   */
  method AppendValues(hashes: seq<Bytes>, cases: map<string, Bytes>) returns (r: seq<Bytes>)
    ensures |r| == |hashes| + |cases| && r[..|hashes|] == hashes
    ensures multiset(r) == multiset(hashes) + multiset(Values(cases))
  {
    r := hashes;
    var rest := cases;
    while rest != map[]
      invariant Collected(hashes, cases, r, rest)
      decreases |rest|
    {
      var k :| k in rest;
      TakeValue(hashes, cases, r, rest, k);
      r := r + [rest[k]];
      rest := rest - {k};
    }
    assert Values(rest) == [];
  }

  /** The loop's invariant: `r` holds `hashes` and then the values taken so far, `rest` the values left. */
  ghost predicate Collected(hashes: seq<Bytes>, cases: map<string, Bytes>, r: seq<Bytes>, rest: map<string, Bytes>)
  {
    && |r| + |rest| == |hashes| + |cases| && |hashes| <= |r| && r[..|hashes|] == hashes
    && multiset(r) + multiset(Values(rest)) == multiset(hashes) + multiset(Values(cases))
  }

  lemma TakeValue(hashes: seq<Bytes>, cases: map<string, Bytes>, r: seq<Bytes>, rest: map<string, Bytes>, k: string)
    requires k in rest && Collected(hashes, cases, r, rest)
    ensures |rest - {k}| < |rest| && Collected(hashes, cases, r + [rest[k]], rest - {k})
  {
    var v, left := rest[k], rest - {k};
    assert |left| < |rest| by {
      assert left.Keys == rest.Keys - {k};
    }
    assert (r + [v])[..|hashes|] == r[..|hashes|];
    assert multiset(Values(rest)) == multiset{v} + multiset(Values(left)) by {
      ValuesRemove(rest, k);
    }
    calc {
      multiset(r + [v]) + multiset(Values(left));
      (multiset(r) + multiset{v}) + multiset(Values(left));
      multiset(r) + (multiset{v} + multiset(Values(left)));
      multiset(r) + multiset(Values(rest));
    }
  }

  /** testCaseHash: the joined digest of hash.json's values, in whatever order they come. */
  method TestCaseHash(fs: FileSystem, base: string, decode: CaseDecoder, sha: HexSha256) returns (r: Result<Bytes>)
    ensures r == TestCaseHashOf(fs, base, decode, sha)
  {
    var p := Paths.Join(base, "hash.json");
    if p !in fs {
      return Err(NotFound(p));
    }
    var decoded := decode(fs[p]);
    if decoded.None? {
      return Err(Malformed(p));
    }
    var cases := decoded.value;
    var hashes := AppendValues([], cases);
    var slice := new Bytes[|hashes|](i requires 0 <= i < |hashes| => hashes[i]);
    assert slice[..] == hashes;
    var digest := JoinHashes(slice, sha);
    assert digest == Aggregate(sha, Values(cases)) by {
      AggregatePermutationInvariant(sha, hashes, Values(cases));
    }
    return Ok(digest);
  }

  lemma ValuesOfRenamed(cases: map<string, Bytes>, k: string, k': string)
    requires k in cases && k' !in cases
    ensures multiset(Values((cases - {k})[k' := cases[k]])) == multiset(Values(cases))
  {
    var rest := cases - {k};
    var renamed := rest[k' := cases[k]];
    assert k' !in rest;
    RemoveAfterAdd(rest, k', cases[k]);
    ValuesRemove(cases, k);
    ValuesRemove(renamed, k');
  }

  lemma RemoveAfterAdd(m: map<string, Bytes>, k: string, v: Bytes)
    requires k !in m
    ensures m[k := v] - {k} == m
  {
    var r := m[k := v] - {k};
    assert r.Keys == m.Keys;
    forall x | x in r ensures r[x] == m[x] {
      assert x != k;
    }
  }

  /** Renaming a test case does not change the test-case hash: only the values count. */
  lemma CasesDigestIgnoresNames(sha: HexSha256, cases: map<string, Bytes>, k: string, k': string)
    requires k in cases && k' !in cases
    ensures Aggregate(sha, Values((cases - {k})[k' := cases[k]])) == Aggregate(sha, Values(cases))
  {
    ValuesOfRenamed(cases, k, k');
    AggregatePermutationInvariant(sha, Values((cases - {k})[k' := cases[k]]), Values(cases));
  }

  /** testCaseHash fails exactly when hash.json is unreadable or not a name-to-digest map. */
  lemma TestCaseHashFails(fs: FileSystem, base: string, decode: CaseDecoder, sha: HexSha256)
    ensures var p := Paths.Join(base, "hash.json");
      && (TestCaseHashOf(fs, base, decode, sha) == Err(NotFound(p)) <==> p !in fs)
      && (TestCaseHashOf(fs, base, decode, sha) == Err(Malformed(p)) <==> p in fs && decode(fs[p]).None?)
      && (TestCaseHashOf(fs, base, decode, sha).Ok? <==> p in fs && decode(fs[p]).Some?)
  {
  }

  // ---------------------------------------------------------------------------
  // version

  /** A required entry whose file cannot be read. */
  predicate MissingRequired(fs: FileSystem, info: FileInfo)
  {
    info.required && EntryPath(info) !in fs
  }

  /** The position of the first required entry that cannot be read, or |infos| when there is none. */
  function FirstMissingRequired(fs: FileSystem, infos: seq<FileInfo>): (k: nat)
    ensures k <= |infos|
    ensures forall j :: 0 <= j < k ==> !MissingRequired(fs, infos[j])
    ensures k < |infos| ==> MissingRequired(fs, infos[k])
  {
    if infos == [] then 0
    else if MissingRequired(fs, infos[0]) then 0
    else 1 + FirstMissingRequired(fs, infos[1..])
  }

  /** What version appends for each entry: the file's digest, or "" when it cannot be read. */
  function EntryDigests(fs: FileSystem, infos: seq<FileInfo>, sha: HexSha256): seq<Bytes>
  {
    seq(|infos|, i requires 0 <= i < |infos| => FileHash(fs, EntryPath(infos[i]), sha).0)
  }

  /** The strings version hands to joinHashes, or the error it stops with. */
  ghost function VersionInputs(fs: FileSystem, base: string, root: string, decode: CaseDecoder, sha: HexSha256): Result<seq<Bytes>>
  {
    match TestCaseHashOf(fs, base, decode, sha)
    case Err(e) => Err(e)
    case Ok(tc) =>
      var infos := FileInfos(base, root);
      var k := FirstMissingRequired(fs, infos);
      if k < |infos| then Err(NotFound(EntryPath(infos[k])))
      else Ok([tc] + EntryDigests(fs, infos, sha))
  }

  /** version's outcome. */
  ghost function VersionOf(fs: FileSystem, base: string, root: string, decode: CaseDecoder, sha: HexSha256): Result<Bytes>
  {
    match VersionInputs(fs, base, root, decode, sha)
    case Err(e) => Err(e)
    case Ok(hs) => Ok(Aggregate(sha, hs))
  }

  /**
   * The manifest loop of version: appends each entry's digest ("" for a file that
   * cannot be read), stopping at the first required entry that cannot be read.
   */
  method AppendFileHashes(fs: FileSystem, infos: seq<FileInfo>, sha: HexSha256, hashes: seq<Bytes>) returns (r: Result<seq<Bytes>>)
    ensures FirstMissingRequired(fs, infos) < |infos| ==> r == Err(NotFound(EntryPath(infos[FirstMissingRequired(fs, infos)])))
    ensures FirstMissingRequired(fs, infos) == |infos| ==> r == Ok(hashes + EntryDigests(fs, infos, sha))
  {
    var acc := hashes;
    for i := 0 to |infos|
      invariant acc == hashes + EntryDigests(fs, infos[..i], sha)
      invariant forall j :: 0 <= j < i ==> !MissingRequired(fs, infos[j])
    {
      var info := infos[i];
      var path := EntryPath(info);
      var (h, err) := FileHash(fs, path, sha);
      if info.required && err.Some? {
        FirstMissingIs(fs, infos, i);
        return Err(err.value);
      }
      AppendDigest(fs, infos, i, sha, hashes, acc);
      acc := acc + [h];
    }
    FirstMissingIs(fs, infos, |infos|);
    assert infos[..|infos|] == infos;
    return Ok(acc);
  }

  /** The first `i` entries are readable or optional and entry `i` (if any) is neither: `i` is the first missing one. */
  lemma FirstMissingIs(fs: FileSystem, infos: seq<FileInfo>, i: nat)
    requires i <= |infos|
    requires forall j :: 0 <= j < i ==> !MissingRequired(fs, infos[j])
    requires i < |infos| ==> MissingRequired(fs, infos[i])
    ensures FirstMissingRequired(fs, infos) == i
  {
  }

  /** One step of the manifest loop: appending entry `i`'s digest extends the list by that entry. */
  lemma AppendDigest(fs: FileSystem, infos: seq<FileInfo>, i: nat, sha: HexSha256, hashes: seq<Bytes>, acc: seq<Bytes>)
    requires i < |infos| && acc == hashes + EntryDigests(fs, infos[..i], sha)
    ensures acc + [FileHash(fs, EntryPath(infos[i]), sha).0] == hashes + EntryDigests(fs, infos[..i + 1], sha)
  {
    EntryDigestsSnoc(fs, infos, i, sha);
    AppendAssociative(hashes, EntryDigests(fs, infos[..i], sha), [FileHash(fs, EntryPath(infos[i]), sha).0]);
  }

  lemma EntryDigestsSnoc(fs: FileSystem, infos: seq<FileInfo>, i: nat, sha: HexSha256)
    requires i < |infos|
    ensures EntryDigests(fs, infos[..i + 1], sha)
      == EntryDigests(fs, infos[..i], sha) + [FileHash(fs, EntryPath(infos[i]), sha).0]
  {
    var a, b := EntryDigests(fs, infos[..i + 1], sha), EntryDigests(fs, infos[..i], sha);
    assert |a| == |b| + 1;
    forall j | 0 <= j < |b| ensures a[j] == b[j] {
      assert infos[..i + 1][j] == infos[..i][j];
    }
  }

  /**
   * version: the test-case hash, then one digest per manifest entry (an unreadable
   * optional file still contributes ""), all joined; a required file that cannot be
   * read stops it with that file's read error.
   */
  method Version(fs: FileSystem, base: string, root: string, decode: CaseDecoder, sha: HexSha256) returns (r: Result<Bytes>)
    ensures r == VersionOf(fs, base, root, decode, sha)
  {
    var tc := TestCaseHash(fs, base, decode, sha);
    if tc.Err? {
      return Err(tc.error);
    }
    var hashes := AppendFileHashes(fs, FileInfos(base, root), sha, [tc.value]);
    if hashes.Err? {
      return Err(hashes.error);
    }
    var all := hashes.value;
    var slice := new Bytes[|all|](i requires 0 <= i < |all| => all[i]);
    assert slice[..] == all;
    var digest := JoinHashes(slice, sha);
    return Ok(digest);
  }

  /** Which version fails: a test-case hash error, or a required manifest file that cannot be read; the two optional files under grader/ never fail it. */
  lemma VersionFails(fs: FileSystem, base: string, root: string, decode: CaseDecoder, sha: HexSha256)
    ensures var infos := FileInfos(base, root);
      && (VersionOf(fs, base, root, decode, sha).Err? <==>
            TestCaseHashOf(fs, base, decode, sha).Err? || exists i :: 0 <= i < 7 && EntryPath(infos[i]) !in fs)
      && (TestCaseHashOf(fs, base, decode, sha).Err? ==>
            VersionOf(fs, base, root, decode, sha) == Err(TestCaseHashOf(fs, base, decode, sha).error))
      && (TestCaseHashOf(fs, base, decode, sha).Ok? && VersionOf(fs, base, root, decode, sha).Err? ==>
            exists i :: 0 <= i < 7 && EntryPath(infos[i]) !in fs
              && VersionOf(fs, base, root, decode, sha).error == NotFound(EntryPath(infos[i])))
  {
    var infos := FileInfos(base, root);
    ManifestLayout(base, root);
    var k := FirstMissingRequired(fs, infos);
    if k < |infos| {
      assert infos[k].required;
    } else if i :| 0 <= i < 7 && EntryPath(infos[i]) !in fs {
      assert MissingRequired(fs, infos[i]);
    }
  }

  /**
   * What version hands to joinHashes: ten strings, the test-case hash first, then one per
   * manifest entry; every required file's digest, and "" for an optional file that is absent.
   */
  lemma VersionInputsShape(fs: FileSystem, base: string, root: string, decode: CaseDecoder, sha: HexSha256)
    requires VersionInputs(fs, base, root, decode, sha).Ok?
    ensures var hs, infos := VersionInputs(fs, base, root, decode, sha).value, FileInfos(base, root);
      && |hs| == 10
      && hs[0] == TestCaseHashOf(fs, base, decode, sha).value
      && (forall i :: 0 <= i < 7 ==> EntryPath(infos[i]) in fs && hs[i + 1] == sha(fs[EntryPath(infos[i])]))
      && (forall i :: 7 <= i < 9 ==> hs[i + 1] == if EntryPath(infos[i]) in fs then sha(fs[EntryPath(infos[i])]) else [])
  {
    var tc, infos := TestCaseHashOf(fs, base, decode, sha).value, FileInfos(base, root);
    assert FirstMissingRequired(fs, infos) == |infos| && VersionInputs(fs, base, root, decode, sha).value == [tc] + EntryDigests(fs, infos, sha);
    ManifestLayout(base, root);
    ReadableDigests(fs, infos, sha, tc);
  }

  /** When no required entry is missing, each entry contributes its digest, or "" when it is absent. */
  lemma ReadableDigests(fs: FileSystem, infos: seq<FileInfo>, sha: HexSha256, tc: Bytes)
    requires FirstMissingRequired(fs, infos) == |infos|
    ensures var hs := [tc] + EntryDigests(fs, infos, sha);
      && |hs| == |infos| + 1 && hs[0] == tc
      && (forall i :: 0 <= i < |infos| && infos[i].required ==> EntryPath(infos[i]) in fs)
      && (forall i :: 0 <= i < |infos| ==> hs[i + 1] == if EntryPath(infos[i]) in fs then sha(fs[EntryPath(infos[i])]) else [])
  {
    DigestsPrefixed(fs, infos, sha, tc);
    RequiredPresent(fs, infos);
  }

  /** Entry `i`'s digest sits at position i + 1 once the test-case digest is put in front. */
  lemma DigestsPrefixed(fs: FileSystem, infos: seq<FileInfo>, sha: HexSha256, tc: Bytes)
    ensures var hs := [tc] + EntryDigests(fs, infos, sha);
      && |hs| == |infos| + 1 && hs[0] == tc
      && (forall i :: 0 <= i < |infos| ==> hs[i + 1] == if EntryPath(infos[i]) in fs then sha(fs[EntryPath(infos[i])]) else [])
  {
    var ds := EntryDigests(fs, infos, sha);
    var hs := [tc] + ds;
    forall i | 0 <= i < |infos| ensures hs[i + 1] == if EntryPath(infos[i]) in fs then sha(fs[EntryPath(infos[i])]) else [] {
      assert hs[i + 1] == ds[i];
    }
  }

  /** With no required entry missing, every required entry's file is on the disk. */
  lemma RequiredPresent(fs: FileSystem, infos: seq<FileInfo>)
    requires FirstMissingRequired(fs, infos) == |infos|
    ensures forall i :: 0 <= i < |infos| && infos[i].required ==> EntryPath(infos[i]) in fs
  {
    forall i | 0 <= i < |infos| && infos[i].required ensures EntryPath(infos[i]) in fs {
      assert !MissingRequired(fs, infos[i]);
    }
  }

  /** Dropping empty strings distributes over concatenation of lists. */
  lemma {:induction false} NonEmptyAppend(a: seq<Bytes>, b: seq<Bytes>)
    ensures NonEmpty(a + b) == NonEmpty(a) + NonEmpty(b)
    decreases |a|
  {
    if a == [] {
      assert a + b == b;
    } else {
      assert (a + b)[0] == a[0] && (a + b)[1..] == a[1..] + b;
      NonEmptyAppend(a[1..], b);
    }
  }

  /** The digests of the entries that can be read, with absent files skipped. */
  function PresentDigests(fs: FileSystem, infos: seq<FileInfo>, sha: HexSha256): (ds: seq<Bytes>)
    ensures |ds| <= |infos|
  {
    if infos == [] then []
    else
      var p := EntryPath(infos[0]);
      (if p in fs then [sha(fs[p])] else []) + PresentDigests(fs, infos[1..], sha)
  }

  /** Apart from empty strings, the "" placeholders and skipping give the same list. */
  lemma {:induction false} EntryDigestsSkipAbsent(fs: FileSystem, infos: seq<FileInfo>, sha: HexSha256)
    ensures NonEmpty(EntryDigests(fs, infos, sha)) == NonEmpty(PresentDigests(fs, infos, sha))
    decreases |infos|
  {
    if infos != [] {
      var d := EntryDigests(fs, infos, sha);
      var tail := EntryDigests(fs, infos[1..], sha);
      assert d == [d[0]] + tail;
      EntryDigestsSkipAbsent(fs, infos[1..], sha);
      var p := EntryPath(infos[0]);
      var head: seq<Bytes> := if p in fs then [sha(fs[p])] else [];
      NonEmptyAppend(head, PresentDigests(fs, infos[1..], sha));
      NonEmptyAppend([d[0]], tail);
      assert NonEmpty([d[0]]) == NonEmpty(head) by {
        assert [d[0]][1..] == [];
        if p in fs {
          assert head[1..] == [];
        }
      }
    }
  }

  /**
   * Appending "" for an absent optional file gives the version that skipping it would:
   * the digest of the test-case hash and the readable files' digests.
   */
  lemma VersionSameAsSkipping(fs: FileSystem, base: string, root: string, decode: CaseDecoder, sha: HexSha256)
    requires VersionOf(fs, base, root, decode, sha).Ok?
    ensures VersionOf(fs, base, root, decode, sha)
      == Ok(Aggregate(sha, [TestCaseHashOf(fs, base, decode, sha).value] + PresentDigests(fs, FileInfos(base, root), sha)))
  {
    var tc, infos := TestCaseHashOf(fs, base, decode, sha).value, FileInfos(base, root);
    assert VersionInputs(fs, base, root, decode, sha) == Ok([tc] + EntryDigests(fs, infos, sha));
    AggregateSkipsAbsent(sha, tc, fs, infos);
  }

  lemma AggregateSkipsAbsent(sha: HexSha256, tc: Bytes, fs: FileSystem, infos: seq<FileInfo>)
    ensures Aggregate(sha, [tc] + EntryDigests(fs, infos, sha)) == Aggregate(sha, [tc] + PresentDigests(fs, infos, sha))
  {
    var listed, skipped := EntryDigests(fs, infos, sha), PresentDigests(fs, infos, sha);
    AggregateDropsEmpty(sha, [tc] + listed);
    AggregateDropsEmpty(sha, [tc] + skipped);
    NonEmptyAppend([tc], listed);
    NonEmptyAppend([tc], skipped);
    EntryDigestsSkipAbsent(fs, infos, sha);
  }

  /** Two disks agree on a path: both lack it, or both hold the same bytes there. */
  predicate AgreeOn(fs: FileSystem, fs': FileSystem, p: string)
  {
    (p in fs <==> p in fs') && (p in fs ==> fs[p] == fs'[p])
  }

  lemma {:induction false} ManifestReadsOnlyItsFiles(fs: FileSystem, fs': FileSystem, infos: seq<FileInfo>, sha: HexSha256)
    requires forall i :: 0 <= i < |infos| ==> AgreeOn(fs, fs', EntryPath(infos[i]))
    ensures FirstMissingRequired(fs, infos) == FirstMissingRequired(fs', infos)
    ensures EntryDigests(fs, infos, sha) == EntryDigests(fs', infos, sha)
    decreases |infos|
  {
    if infos != [] {
      assert AgreeOn(fs, fs', EntryPath(infos[0]));
      ManifestReadsOnlyItsFiles(fs, fs', infos[1..], sha);
    }
  }

  /** version reads nothing but hash.json and the manifest's files. */
  lemma VersionReadsOnlyItsFiles(fs: FileSystem, fs': FileSystem, base: string, root: string, decode: CaseDecoder, sha: HexSha256)
    requires AgreeOn(fs, fs', Paths.Join(base, "hash.json"))
    requires forall i :: 0 <= i < |FileInfos(base, root)| ==> AgreeOn(fs, fs', EntryPath(FileInfos(base, root)[i]))
    ensures VersionOf(fs, base, root, decode, sha) == VersionOf(fs', base, root, decode, sha)
  {
    ManifestReadsOnlyItsFiles(fs, fs', FileInfos(base, root), sha);
  }

  /**
   * With an idealised SHA-256 (no two inputs share a digest) and digests of one width,
   * the aggregate changes exactly when the collection of digests it is given does.
   */
  lemma AggregateDetectsChange(sha: HexSha256, xs: seq<Bytes>, ys: seq<Bytes>, w: nat)
    requires forall a, b :: sha(a) == sha(b) ==> a == b
    requires w > 0
    requires forall x :: x in xs ==> |x| == w
    requires forall y :: y in ys ==> |y| == w
    ensures Aggregate(sha, xs) == Aggregate(sha, ys) <==> multiset(xs) == multiset(ys)
  {
    HashedBytesDetermineDigests(xs, ys, w);
  }

  lemma {:induction false} PresentDigestsWidth(fs: FileSystem, infos: seq<FileInfo>, sha: HexSha256, w: nat)
    requires forall p :: p in fs ==> |sha(fs[p])| == w
    ensures forall d :: d in PresentDigests(fs, infos, sha) ==> |d| == w
    decreases |infos|
  {
    if infos != [] {
      PresentDigestsWidth(fs, infos[1..], sha, w);
    }
  }

  /**
   * Under an idealised SHA-256 (no two inputs share a digest) whose digests of the two
   * disks' files and test-case hashes all have one width, two versions are equal exactly
   * when the test-case hashes and the digests of the readable manifest files are the
   * same collection.
   */
  lemma VersionDetectsChange(fs: FileSystem, fs': FileSystem, base: string, root: string, decode: CaseDecoder, sha: HexSha256, w: nat)
    requires forall a, b :: sha(a) == sha(b) ==> a == b
    requires w > 0
    requires forall p :: p in fs ==> |sha(fs[p])| == w
    requires forall p :: p in fs' ==> |sha(fs'[p])| == w
    requires VersionOf(fs, base, root, decode, sha).Ok? && VersionOf(fs', base, root, decode, sha).Ok?
    requires |TestCaseHashOf(fs, base, decode, sha).value| == w && |TestCaseHashOf(fs', base, decode, sha).value| == w
    ensures VersionOf(fs, base, root, decode, sha) == VersionOf(fs', base, root, decode, sha) <==>
      multiset([TestCaseHashOf(fs, base, decode, sha).value] + PresentDigests(fs, FileInfos(base, root), sha))
        == multiset([TestCaseHashOf(fs', base, decode, sha).value] + PresentDigests(fs', FileInfos(base, root), sha))
  {
    var tc, tc' := TestCaseHashOf(fs, base, decode, sha).value, TestCaseHashOf(fs', base, decode, sha).value;
    VersionNeedsTestCaseHash(fs, base, root, decode, sha);
    VersionNeedsTestCaseHash(fs', base, root, decode, sha);
    VersionSameAsSkipping(fs, base, root, decode, sha);
    VersionSameAsSkipping(fs', base, root, decode, sha);
    SkippingDetectsChange(sha, w, tc, tc', fs, fs', FileInfos(base, root));
  }

  // A witness that the assumptions of VersionDetectsChange can all hold together: the identity
  // stands in for an injective `sha`, and every file and the one test case hold the byte 1.

  function Identity(b: Bytes): Bytes { b }

  function OneCase(b: Bytes): Option<map<string, Bytes>> { Some(map["t" := [1]]) }

  function OnesDisk(base: string, root: string): (fs: FileSystem)
    ensures forall p :: p in fs ==> fs[p] == [1]
  {
    var paths := (set i | 0 <= i < 9 :: EntryPath(FileInfos(base, root)[i])) + {Paths.Join(base, "hash.json")};
    map p | p in paths :: [1]
  }

  lemma DetectsChangeAssumptionsMet(base: string, root: string)
    ensures forall a, b :: Identity(a) == Identity(b) ==> a == b
    ensures forall p :: p in OnesDisk(base, root) ==> |Identity(OnesDisk(base, root)[p])| == 1
    ensures VersionOf(OnesDisk(base, root), base, root, OneCase, Identity).Ok?
    ensures |TestCaseHashOf(OnesDisk(base, root), base, OneCase, Identity).value| == 1
  {
    var fs := OnesDisk(base, root);
    OnesDiskReadable(base, root);
    OneCaseAggregate();
    assert TestCaseHashOf(fs, base, OneCase, Identity) == Ok([1]);
  }

  lemma OnesDiskReadable(base: string, root: string)
    ensures Paths.Join(base, "hash.json") in OnesDisk(base, root)
    ensures FirstMissingRequired(OnesDisk(base, root), FileInfos(base, root)) == 9
  {
    var fs, infos := OnesDisk(base, root), FileInfos(base, root);
    assert forall i :: 0 <= i < |infos| ==> EntryPath(infos[i]) in fs;
    FirstMissingIs(fs, infos, |infos|);
  }

  lemma OneCaseAggregate()
    ensures Aggregate(Identity, Values(map["t" := [1]])) == [1]
  {
    var one: Bytes := [1];
    var m := map["t" := one];
    assert Values(m) == [one] by {
      assert "t" in m;
      assert SomeKey(m) == "t";
      assert m - {"t"} == map[];
    }
    assert Sort([one]) == [one] by {
      SortedArrangement([one], [one]);
    }
    assert Concat([one]) == one by {
      assert [one][..0] == [];
    }
  }

  lemma VersionNeedsTestCaseHash(fs: FileSystem, base: string, root: string, decode: CaseDecoder, sha: HexSha256)
    requires VersionOf(fs, base, root, decode, sha).Ok?
    ensures TestCaseHashOf(fs, base, decode, sha).Ok?
    ensures exists bytes :: TestCaseHashOf(fs, base, decode, sha).value == sha(bytes)
  {
    var cases := decode(fs[Paths.Join(base, "hash.json")]).value;
    assert TestCaseHashOf(fs, base, decode, sha).value == sha(Concat(Sort(Values(cases))));
  }

  lemma SkippingDetectsChange(sha: HexSha256, w: nat, tc: Bytes, tc': Bytes, fs: FileSystem, fs': FileSystem, infos: seq<FileInfo>)
    requires forall a, b :: sha(a) == sha(b) ==> a == b
    requires w > 0
    requires forall p :: p in fs ==> |sha(fs[p])| == w
    requires forall p :: p in fs' ==> |sha(fs'[p])| == w
    requires |tc| == w && |tc'| == w
    ensures var xs, ys := [tc] + PresentDigests(fs, infos, sha), [tc'] + PresentDigests(fs', infos, sha);
      Aggregate(sha, xs) == Aggregate(sha, ys) <==> multiset(xs) == multiset(ys)
  {
    var xs, ys := [tc] + PresentDigests(fs, infos, sha), [tc'] + PresentDigests(fs', infos, sha);
    PresentDigestsWidth(fs, infos, sha, w);
    PresentDigestsWidth(fs', infos, sha, w);
    AggregateDetectsChange(sha, xs, ys, w);
  }

  /** A version that succeeds has found every required file of the manifest. */
  lemma VersionFindsRequired(fs: FileSystem, base: string, root: string, decode: CaseDecoder, sha: HexSha256)
    requires VersionOf(fs, base, root, decode, sha).Ok?
    ensures forall j :: 0 <= j < |FileInfos(base, root)| ==> !MissingRequired(fs, FileInfos(base, root)[j])
  {
    assert FirstMissingRequired(fs, FileInfos(base, root)) == |FileInfos(base, root)|;
  }
}
