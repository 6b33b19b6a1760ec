/** What `sort.Strings` leaves in a slice: the ascending arrangement of its elements. */
module Sorting {
  import opened ByteStrings

  predicate Sorted(s: seq<Bytes>)
  {
    forall i, j :: 0 <= i < j < |s| ==> LessEq(s[i], s[j])
  }

  /** Insertion of one string into an ascending sequence. */
  function Insert(x: Bytes, s: seq<Bytes>): (r: seq<Bytes>)
    ensures multiset(r) == multiset(s) + multiset{x}
    ensures Sorted(s) ==> Sorted(r)
  {
    if s == [] then [x]
    else if LessEq(x, s[0]) then
      LessEqSortedPrefix(x, s);
      [x] + s
    else
      var tail := Insert(x, s[1..]);
      InsertBehindHead(x, s, tail);
      [s[0]] + tail
  }

  /** Putting `x` behind the head of `s`, which is below it, keeps the result ascending. */
  lemma InsertBehindHead(x: Bytes, s: seq<Bytes>, tail: seq<Bytes>)
    requires s != [] && !LessEq(x, s[0])
    requires multiset(tail) == multiset(s[1..]) + multiset{x}
    requires Sorted(s[1..]) ==> Sorted(tail)
    ensures multiset([s[0]] + tail) == multiset(s) + multiset{x}
    ensures Sorted(s) ==> Sorted([s[0]] + tail)
  {
    assert s == [s[0]] + s[1..];
    if Sorted(s) {
      SortedTail(s);
      HeadBelowInserted(x, s, tail);
      ConsSorted(s[0], tail);
    }
  }

  /** A string below every element of an ascending sequence can go in front of it. */
  lemma ConsSorted(h: Bytes, t: seq<Bytes>)
    requires Sorted(t) && forall y :: y in t ==> LessEq(h, y)
    ensures Sorted([h] + t)
  {
    var r := [h] + t;
    forall i, j | 0 <= i < j < |r| ensures LessEq(r[i], r[j]) {
      if i == 0 {
        assert r[j] in t;
      } else {
        assert r[i] == t[i - 1] && r[j] == t[j - 1];
      }
    }
  }

  lemma HeadBelowInserted(x: Bytes, s: seq<Bytes>, tail: seq<Bytes>)
    requires s != [] && !LessEq(x, s[0]) && Sorted(s)
    requires multiset(tail) == multiset(s[1..]) + multiset{x}
    ensures forall y :: y in tail ==> LessEq(s[0], y)
  {
    LessEqTotal(x, s[0]);
    forall y | y in tail ensures LessEq(s[0], y) {
      assert y in multiset(tail);
      if y != x {
        assert y in multiset(s[1..]);
        var k :| 0 <= k < |s[1..]| && s[1..][k] == y;
        assert s[k + 1] == y;
      }
    }
  }

  lemma LessEqSortedPrefix(x: Bytes, s: seq<Bytes>)
    requires s != [] && LessEq(x, s[0])
    ensures Sorted(s) ==> Sorted([x] + s)
  {
    if Sorted(s) {
      var r := [x] + s;
      forall i, j | 0 <= i < j < |r| ensures LessEq(r[i], r[j]) {
        if i == 0 && j > 1 {
          LessEqTransitive(x, s[0], s[j - 1]);
        }
      }
    }
  }

  /** The ascending arrangement of `s`. */
  function Sort(s: seq<Bytes>): (r: seq<Bytes>)
    ensures Sorted(r)
    ensures multiset(r) == multiset(s)
  {
    if s == [] then []
    else
      assert s == [s[0]] + s[1..];
      Insert(s[0], Sort(s[1..]))
  }

  /** The first element of an ascending sequence is below every element of it. */
  lemma SortedHeadLeast(a: seq<Bytes>, y: Bytes)
    requires Sorted(a) && y in multiset(a)
    ensures LessEq(a[0], y)
  {
    var k :| 0 <= k < |a| && a[k] == y;
    if k == 0 {
      LessEqReflexive(y);
    }
  }

  lemma SortedTail(a: seq<Bytes>)
    requires Sorted(a) && a != []
    ensures Sorted(a[1..])
  {
    forall i, j | 0 <= i < j < |a| - 1 ensures LessEq(a[1..][i], a[1..][j]) {
      assert a[1..][i] == a[i + 1] && a[1..][j] == a[j + 1];
    }
  }

  lemma MultisetTail(a: seq<Bytes>)
    requires a != []
    ensures multiset(a[1..]) == multiset(a) - multiset{a[0]}
  {
    assert a == [a[0]] + a[1..];
    assert multiset(a) == multiset{a[0]} + multiset(a[1..]);
  }

  /** Two ascending sequences with the same elements are the same sequence. */
  lemma {:induction false} SortedUnique(a: seq<Bytes>, b: seq<Bytes>)
    requires Sorted(a) && Sorted(b)
    requires multiset(a) == multiset(b)
    ensures a == b
    decreases |a|
  {
    if a == [] {
      assert |b| == |multiset(b)| == 0;
    } else {
      assert |b| == |multiset(b)| == |multiset(a)| == |a|;
      SortedHeadLeast(b, a[0]);
      SortedHeadLeast(a, b[0]);
      LessEqAntisymmetric(a[0], b[0]);
      MultisetTail(a);
      MultisetTail(b);
      SortedTail(a);
      SortedTail(b);
      SortedUnique(a[1..], b[1..]);
      assert a == [a[0]] + a[1..] && b == [b[0]] + b[1..];
    }
  }

  /** Sorting forgets the order of its input. */
  lemma SortPermutationInvariant(xs: seq<Bytes>, ys: seq<Bytes>)
    requires multiset(xs) == multiset(ys)
    ensures Sort(xs) == Sort(ys)
  {
    SortedUnique(Sort(xs), Sort(ys));
  }

  /** Any ascending arrangement of `xs` is the one `Sort` gives. */
  lemma SortedArrangement(xs: seq<Bytes>, ys: seq<Bytes>)
    requires Sorted(ys) && multiset(ys) == multiset(xs)
    ensures Sort(xs) == ys
  {
    SortedUnique(Sort(xs), ys);
  }

  /** `sort.Strings(a)`: the slice is left holding the ascending arrangement of what it held. */
  method SortStrings(a: array<Bytes>)
    modifies a
    ensures a[..] == Sort(old(a[..]))
  {
    var sorted := Sort(a[..]);
    assert |sorted| == |multiset(sorted)| == |multiset(a[..])| == a.Length;
    forall i | 0 <= i < a.Length {
      a[i] := sorted[i];
    }
  }
}
