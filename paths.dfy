/** The slash-separated path rules of Go's `path` and `strings` packages that the storage code uses. */
module Paths {

  /**
   * `path.Join(dir, elem)` for a clean directory and a clean relative name that is not "." or ".."
   * and does not begin with "../": the root "/" takes the name right after its slash, and the
   * current directory "." vanishes.
   */
  function Join(dir: string, elem: string): (p: string)
    ensures dir == "" ==> p == elem
    ensures elem == "" ==> p == dir
    ensures dir == "/" && elem != "" ==> p == "/" + elem
    ensures dir == "." && elem != "" ==> p == elem
    ensures dir != "" && dir != "." && dir != "/" && elem != "" ==>
      |p| == |dir| + 1 + |elem| && p[..|dir|] == dir && p[|dir|] == '/' && p[|dir| + 1..] == elem
  {
    if dir == "" then elem
    else if elem == "" then dir
    else if dir == "/" then "/" + elem
    else if dir == "." then elem
    else dir + "/" + elem
  }

  /** The path with every trailing slash removed. */
  function TrimTrailingSlashes(p: string): (q: string)
    ensures |q| <= |p| && q == p[..|q|]
    ensures q == "" || q[|q| - 1] != '/'
    ensures forall i :: |q| <= i < |p| ==> p[i] == '/'
  {
    if p != "" && p[|p| - 1] == '/' then TrimTrailingSlashes(p[..|p| - 1]) else p
  }

  /** The text after the last slash (all of it when there is none). */
  function LastElement(q: string): (e: string)
    ensures '/' !in e
    ensures |e| <= |q| && q[|q| - |e|..] == e
    ensures |e| < |q| ==> q[|q| - |e| - 1] == '/'
  {
    if q == "" || q[|q| - 1] == '/' then ""
    else LastElement(q[..|q| - 1]) + [q[|q| - 1]]
  }

  /** `path.Base`: the last element of the path, "." for the empty path and "/" for slashes only. */
  function Base(p: string): (name: string)
    ensures name != ""
    ensures name == "/" || '/' !in name
    ensures p == "" ==> name == "."
  {
    if p == "" then "."
    else
      var e := LastElement(TrimTrailingSlashes(p));
      if e == "" then "/" else e
  }

  lemma {:induction false} LastElementAfterSlash(dir: string, name: string)
    requires '/' !in name
    ensures LastElement(dir + "/" + name) == name
    decreases |name|
  {
    var q := dir + "/" + name;
    if name != "" {
      assert q[..|q| - 1] == dir + "/" + name[..|name| - 1];
      LastElementAfterSlash(dir, name[..|name| - 1]);
      assert name == name[..|name| - 1] + [name[|name| - 1]];
    }
  }

  /** A name without slashes is its own base. */
  lemma BaseOfName(name: string)
    requires name != "" && '/' !in name
    ensures Base(name) == name
  {
    assert name[|name| - 1] in name;
    assert TrimTrailingSlashes(name) == name;
  }

  /** The name after a final slash is the base, whatever precedes the slash. */
  lemma BaseAfterSlash(dir: string, name: string)
    requires name != "" && '/' !in name
    ensures Base(dir + "/" + name) == name
  {
    var p := dir + "/" + name;
    assert p[|p| - 1] == name[|name| - 1];
    assert TrimTrailingSlashes(p) == p;
    LastElementAfterSlash(dir, name);
  }

  /** Base undoes Join: the name joined onto a directory is the name Base reports. */
  lemma BaseOfJoin(dir: string, name: string)
    requires name != "" && '/' !in name
    ensures Base(Join(dir, name)) == name
  {
    if dir == "" || dir == "." {
      assert Join(dir, name) == name;
      BaseOfName(name);
    } else if dir == "/" {
      assert Join(dir, name) == "" + "/" + name;
      BaseAfterSlash("", name);
    } else {
      assert Join(dir, name) == dir + "/" + name;
      BaseAfterSlash(dir, name);
    }
  }

  /** `path.Ext`: the suffix from the final dot of the last element, or "" when it has none. */
  function Ext(p: string): (e: string)
    ensures e == "" || (e[0] == '.' && '.' !in e[1..] && '/' !in e && |e| <= |p| && p[|p| - |e|..] == e)
    ensures e == "" ==> '.' !in LastElement(p)
  {
    if p == "" || p[|p| - 1] == '/' then ""
    else if p[|p| - 1] == '.' then "."
    else
      var e := Ext(p[..|p| - 1]);
      if e == "" then "" else e + [p[|p| - 1]]
  }

  /** The extension is the suffix from a dot after which the path has no other dot and no slash. */
  lemma {:induction false} ExtFromDot(p: string, k: nat)
    requires k < |p| && p[k] == '.'
    requires forall j :: k < j < |p| ==> p[j] != '.' && p[j] != '/'
    ensures Ext(p) == p[k..]
    decreases |p|
  {
    if k < |p| - 1 {
      var r := p[..|p| - 1];
      ExtFromDot(r, k);
      assert r[k..] + [p[|p| - 1]] == p[k..];
    }
  }

  /** A name `stem.x`, with no dot and no slash in x, has extension ".x" wherever it is put. */
  lemma ExtOfDotted(q: string, name: string, stem: string, x: string)
    requires '.' !in x && '/' !in x && name == stem + "." + x
    ensures Ext(q + name) == "." + x
  {
    var p, k := q + name, |q| + |stem|;
    assert name[|stem|..] == "." + x;
    forall j | k < j < |p| ensures p[j] != '.' && p[j] != '/' {
      assert p[j] == name[j - |q|] == x[j - k - 1];
    }
    assert p[k] == name[|stem|] == '.';
    ExtFromDot(p, k);
    assert p[k..] == name[|stem|..];
  }

  /** `strings.Contains(s, sub)`. */
  predicate Contains(s: string, sub: string): (b: bool)
    ensures sub == "" ==> b
    ensures |sub| > |s| ==> !b
    decreases |s|
  {
    |sub| <= |s| && (s[..|sub|] == sub || Contains(s[1..], sub))
  }

  /** Contains finds `sub` wherever it occurs in `s`. */
  lemma {:induction false} ContainsAt(s: string, sub: string, i: nat)
    requires i + |sub| <= |s| && s[i..i + |sub|] == sub
    ensures Contains(s, sub)
    decreases i
  {
    if i > 0 {
      assert s[1..][i - 1..i - 1 + |sub|] == sub;
      ContainsAt(s[1..], sub, i - 1);
    }
  }

  /** Every occurrence Contains reports is a real one. */
  lemma {:induction false} ContainsWitness(s: string, sub: string) returns (i: nat)
    requires Contains(s, sub)
    ensures i + |sub| <= |s| && s[i..i + |sub|] == sub
    decreases |s|
  {
    if s[..|sub|] == sub {
      i := 0;
    } else {
      var j := ContainsWitness(s[1..], sub);
      i := j + 1;
      assert s[i..i + |sub|] == s[1..][j..j + |sub|];
    }
  }

  /** What a path contains, every path that extends it contains too. */
  lemma ContainsInExtension(s: string, t: string, sub: string)
    requires Contains(s, sub) && |s| <= |t| && t[..|s|] == s
    ensures Contains(t, sub)
  {
    var i := ContainsWitness(s, sub);
    assert t[i..i + |sub|] == s[i..i + |sub|];
    ContainsAt(t, sub, i);
  }
}
