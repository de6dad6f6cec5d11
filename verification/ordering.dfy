/** The final ordering of the license list: Go's string `<` and a sort of
    licenses by name. */
module Ordering {
  import opened Types

  /** Go's `<` on strings compares bytes lexicographically; for UTF-8 text
      that is the lexicographic order of code points, which is how `char`s
      compare. A proper prefix is smaller. */
  predicate Less(a: string, b: string)
    decreases |a|
  {
    if |a| == 0 then |b| > 0
    else if |b| == 0 then false
    else if a[0] != b[0] then a[0] < b[0]
    else Less(a[1..], b[1..])
  }

  lemma {:induction false} LessIrreflexive(a: string)
    ensures !Less(a, a)
  {
    if |a| > 0 {
      LessIrreflexive(a[1..]);
    }
  }

  lemma {:induction false} LessTransitive(a: string, b: string, c: string)
    requires Less(a, b) && Less(b, c)
    ensures Less(a, c)
    decreases |a|
  {
    if |a| > 0 && a[0] == b[0] && b[0] == c[0] {
      LessTransitive(a[1..], b[1..], c[1..]);
    }
  }

  /** Any two strings are equal or ordered one way, and never both ways. */
  lemma {:induction false} LessTotal(a: string, b: string)
    ensures a == b || Less(a, b) || Less(b, a)
    ensures !(Less(a, b) && Less(b, a))
    decreases |a|
  {
    if |a| > 0 && |b| > 0 && a[0] == b[0] {
      LessTotal(a[1..], b[1..]);
      if a[1..] == b[1..] {
        assert a == [a[0]] + a[1..] && b == [b[0]] + b[1..];
      }
    }
  }

  /** `a` may come before `b`. */
  predicate NotAfter(a: string, b: string) {
    !Less(b, a)
  }

  lemma NotAfterTransitive(a: string, b: string, c: string)
    requires NotAfter(a, b) && NotAfter(b, c)
    ensures NotAfter(a, c)
  {
    if Less(c, a) {
      LessTotal(a, b);
      if Less(a, b) {
        LessTransitive(c, a, b);
      }
    }
  }

  /** The `sort.Slice` order: names never decrease. */
  predicate SortedByName(s: seq<License>) {
    forall i, j :: 0 <= i < j < |s| ==> NotAfter(s[i].name, s[j].name)
  }

  /** No two entries share a name. */
  predicate DistinctNames(s: seq<License>) {
    forall i, j :: 0 <= i < |s| && 0 <= j < |s| && i != j ==> s[i].name != s[j].name
  }

  /** Places `x` into the sorted `s`, before the first entry not smaller. */
  function InsertByName(x: License, s: seq<License>): (r: seq<License>)
    requires SortedByName(s)
    ensures SortedByName(r)
    ensures multiset(r) == multiset(s) + multiset{x}
  {
    if |s| == 0 then [x]
    else if !Less(s[0].name, x.name) then
      forall j | 0 <= j < |s|
        ensures NotAfter(x.name, s[j].name)
      {
        LessTotal(x.name, s[0].name);
        if j > 0 {
          NotAfterTransitive(x.name, s[0].name, s[j].name);
        }
      }
      [x] + s
    else
      var rest := InsertByName(x, s[1..]);
      assert s == [s[0]] + s[1..];
      forall j | 0 <= j < |rest|
        ensures NotAfter(s[0].name, rest[j].name)
      {
        assert rest[j] in multiset(rest);
        if rest[j] == x {
          LessTotal(s[0].name, x.name);
        } else {
          assert rest[j] in multiset(s[1..]);
          var k :| 0 <= k < |s[1..]| && s[1..][k] == rest[j];
          assert s[k + 1] == rest[j];
        }
      }
      [s[0]] + rest
  }

  /** Sorts licenses by name: the result is ordered and is a permutation
      of the input. */
  function SortByName(s: seq<License>): (r: seq<License>)
    ensures SortedByName(r)
    ensures multiset(r) == multiset(s)
    ensures |r| == |s|
  {
    if |s| == 0 then []
    else
      assert s == [s[0]] + s[1..];
      InsertByName(s[0], SortByName(s[1..]))
  }

  /** Two sorted permutations of entries with distinct names start with
      the same entry. */
  lemma SortedHeadsEqual(a: seq<License>, b: seq<License>)
    requires SortedByName(a) && SortedByName(b)
    requires multiset(a) == multiset(b)
    requires DistinctNames(a)
    requires |a| > 0 && |b| > 0
    ensures a[0] == b[0]
  {
    assert b[0] in multiset(a);
    var i :| 0 <= i < |a| && a[i] == b[0];
    assert a[0] in multiset(b);
    var j :| 0 <= j < |b| && b[j] == a[0];
    LessIrreflexive(a[0].name);
    assert NotAfter(a[0].name, b[0].name) by {
      if i > 0 {
        assert NotAfter(a[0].name, a[i].name);
      }
    }
    assert NotAfter(b[0].name, a[0].name) by {
      if j > 0 {
        assert NotAfter(b[0].name, b[j].name);
      }
    }
    LessTotal(a[0].name, b[0].name);
    assert i == 0;
  }

  lemma TailsPermuted(a: seq<License>, b: seq<License>)
    requires |a| > 0 && |b| > 0 && a[0] == b[0]
    requires multiset(a) == multiset(b)
    ensures multiset(a[1..]) == multiset(b[1..])
  {
    assert a == [a[0]] + a[1..];
    assert b == [b[0]] + b[1..];
    assert multiset(a) == multiset{a[0]} + multiset(a[1..]);
    assert multiset(b) == multiset{a[0]} + multiset(b[1..]);
    forall x
      ensures multiset(a[1..])[x] == multiset(b[1..])[x]
    {
      assert multiset(a)[x] == multiset(b)[x];
    }
  }

  /** When names are distinct, there is only one way to sort: two sorted
      permutations of the same entries are equal. */
  lemma {:induction false} SortedPermutationUnique(a: seq<License>, b: seq<License>)
    requires SortedByName(a) && SortedByName(b)
    requires multiset(a) == multiset(b)
    requires DistinctNames(a)
    ensures a == b
    decreases |a|
  {
    assert |a| == |multiset(a)| == |multiset(b)| == |b|;
    if |a| > 0 {
      SortedHeadsEqual(a, b);
      TailsPermuted(a, b);
      SortedPermutationUnique(a[1..], b[1..]);
      assert a == [a[0]] + a[1..] && b == [b[0]] + b[1..];
    }
  }
}
