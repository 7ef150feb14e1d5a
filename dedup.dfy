/**
 * Deduplication of a list: walk the items left to right and reject an item
 * when it compares equal to an item already kept. The comparison is a
 * parameter. With `===` this is Laravel's Collection::uniqueStrict(). With
 * loose `==` it stands for Collection::unique(), which PHP computes by
 * sorting (array_unique with SORT_REGULAR); the two agree when `==` is an
 * equivalence consistent with PHP's ordering.
 */
module Dedup {

  /** `x` compares equal to some item of `kept`. */
  predicate Related<T>(eq: (T, T) -> bool, x: T, kept: seq<T>)
  {
    exists i :: 0 <= i < |kept| && eq(x, kept[i])
  }

  /** No item compares equal to an item before it. */
  predicate NoDuplicates<T>(eq: (T, T) -> bool, s: seq<T>)
  {
    forall i, j :: 0 <= i < j < |s| ==> !eq(s[j], s[i])
  }

  /** `r` is `s` with some items deleted, the rest in their order. */
  ghost predicate Subsequence<T>(r: seq<T>, s: seq<T>)
    decreases |s|
  {
    if r == [] then true
    else if s == [] then false
    else (r[0] == s[0] && Subsequence(r[1..], s[1..])) || Subsequence(r, s[1..])
  }

  lemma {:induction false} SubsequenceMembers<T>(r: seq<T>, s: seq<T>)
    requires Subsequence(r, s)
    ensures forall x :: x in r ==> x in s
    decreases |s|
  {
    if r != [] {
      if r[0] == s[0] && Subsequence(r[1..], s[1..]) {
        SubsequenceMembers(r[1..], s[1..]);
        assert forall x :: x in r ==> x == r[0] || x in r[1..];
      } else {
        SubsequenceMembers(r, s[1..]);
      }
    }
  }

  /** Dropping items of one list and then of the result still drops items. */
  lemma {:induction false} SubsequenceTransitive<T>(a: seq<T>, b: seq<T>, c: seq<T>)
    requires Subsequence(a, b) && Subsequence(b, c)
    ensures Subsequence(a, c)
    decreases |c|
  {
    if a != [] {
      if b[0] == c[0] && Subsequence(b[1..], c[1..]) {
        if a[0] == b[0] && Subsequence(a[1..], b[1..]) {
          SubsequenceTransitive(a[1..], b[1..], c[1..]);
        } else {
          SubsequenceTransitive(a, b[1..], c[1..]);
        }
      } else {
        SubsequenceTransitive(a, b, c[1..]);
      }
    }
  }

  /** Every list is a subsequence of itself. */
  lemma {:induction false} SubsequenceReflexive<T>(s: seq<T>)
    ensures Subsequence(s, s)
    decreases |s|
  {
    if s != [] {
      SubsequenceReflexive(s[1..]);
    }
  }

  lemma RelatedGrows<T>(eq: (T, T) -> bool, x: T, kept: seq<T>, more: seq<T>)
    ensures Related(eq, x, kept) ==> Related(eq, x, kept + more)
  {
    if Related(eq, x, kept) {
      var i :| 0 <= i < |kept| && eq(x, kept[i]);
      assert (kept + more)[i] == kept[i];
    }
  }

  /** The reject loop, continued after the items
      `kept` have been kept: the items of `s` that are kept as well. */
  function UniqueAfter<T>(eq: (T, T) -> bool, kept: seq<T>, s: seq<T>): seq<T>
    decreases |s|
  {
    if s == [] then []
    else if Related(eq, s[0], kept) then UniqueAfter(eq, kept, s[1..])
    else [s[0]] + UniqueAfter(eq, kept + [s[0]], s[1..])
  }

  /** What the reject loop keeps: items of `s` in their order, none equal to
      an item kept before it, and every item of `s` either kept or equal to
      a kept one. */
  lemma UniqueAfterSpec<T>(eq: (T, T) -> bool, kept: seq<T>, s: seq<T>)
    ensures var r := UniqueAfter(eq, kept, s);
      && Subsequence(r, s)
      && (forall i :: 0 <= i < |r| ==> !Related(eq, r[i], kept))
      && NoDuplicates(eq, r)
      && (forall i :: 0 <= i < |s| ==> s[i] in r || Related(eq, s[i], kept + r))
  {
    UniqueAfterSubsequence(eq, kept, s);
    UniqueAfterFresh(eq, kept, s);
    UniqueAfterCovers(eq, kept, s);
  }

  lemma {:induction false} UniqueAfterSubsequence<T>(eq: (T, T) -> bool, kept: seq<T>, s: seq<T>)
    ensures Subsequence(UniqueAfter(eq, kept, s), s)
    decreases |s|
  {
    if s != [] {
      if Related(eq, s[0], kept) {
        UniqueAfterSubsequence(eq, kept, s[1..]);
      } else {
        var rest := UniqueAfter(eq, kept + [s[0]], s[1..]);
        UniqueAfterSubsequence(eq, kept + [s[0]], s[1..]);
        assert ([s[0]] + rest)[1..] == rest;
      }
    }
  }

  lemma {:induction false} UniqueAfterFresh<T>(eq: (T, T) -> bool, kept: seq<T>, s: seq<T>)
    ensures var r := UniqueAfter(eq, kept, s);
      && (forall i :: 0 <= i < |r| ==> !Related(eq, r[i], kept))
      && NoDuplicates(eq, r)
    decreases |s|
  {
    if s != [] {
      if Related(eq, s[0], kept) {
        UniqueAfterFresh(eq, kept, s[1..]);
      } else {
        var rest := UniqueAfter(eq, kept + [s[0]], s[1..]);
        UniqueAfterFresh(eq, kept + [s[0]], s[1..]);
        var r := [s[0]] + rest;
        assert r[1..] == rest;
        assert (kept + [s[0]])[|kept|] == s[0];
        forall i | 0 <= i < |rest|
          ensures !Related(eq, rest[i], kept) && !eq(rest[i], s[0])
        {
          RelatedGrows(eq, rest[i], kept, [s[0]]);
        }
      }
    }
  }

  lemma {:induction false} UniqueAfterCovers<T>(eq: (T, T) -> bool, kept: seq<T>, s: seq<T>)
    ensures var r := UniqueAfter(eq, kept, s);
      forall i :: 0 <= i < |s| ==> s[i] in r || Related(eq, s[i], kept + r)
    decreases |s|
  {
    if s != [] {
      assert forall i :: 1 <= i < |s| ==> s[i] == s[1..][i - 1];
      if Related(eq, s[0], kept) {
        var r := UniqueAfter(eq, kept, s[1..]);
        UniqueAfterCovers(eq, kept, s[1..]);
        RelatedGrows(eq, s[0], kept, r);
      } else {
        var rest := UniqueAfter(eq, kept + [s[0]], s[1..]);
        UniqueAfterCovers(eq, kept + [s[0]], s[1..]);
        var r := [s[0]] + rest;
        assert kept + [s[0]] + rest == kept + r;
        assert s[0] in r;
      }
    }
  }

  /** Deduplication under the comparison `eq`: first occurrences kept. */
  function Unique<T>(eq: (T, T) -> bool, s: seq<T>): (r: seq<T>)
    ensures Subsequence(r, s)
    ensures NoDuplicates(eq, r)
    ensures forall i :: 0 <= i < |s| ==> s[i] in r || Related(eq, s[i], r)
  {
    UniqueAfterSpec(eq, [], s);
    var r := UniqueAfter(eq, [], s);
    assert [] + r == r;
    r
  }

  /** The loop over `a + b` is the loop over `a` followed by the loop over
      `b` that remembers what `a` kept: this is what makes first-seen order. */
  lemma {:induction false} UniqueAfterAppend<T>(eq: (T, T) -> bool, kept: seq<T>, a: seq<T>, b: seq<T>)
    ensures UniqueAfter(eq, kept, a + b)
         == UniqueAfter(eq, kept, a) + UniqueAfter(eq, kept + UniqueAfter(eq, kept, a), b)
    decreases |a|
  {
    if a == [] {
      assert a + b == b;
      assert kept + [] == kept;
    } else {
      assert (a + b)[0] == a[0];
      assert (a + b)[1..] == a[1..] + b;
      if Related(eq, a[0], kept) {
        UniqueAfterAppend(eq, kept, a[1..], b);
      } else {
        UniqueAfterAppend(eq, kept + [a[0]], a[1..], b);
        var rest := UniqueAfter(eq, kept + [a[0]], a[1..]);
        assert kept + [a[0]] + rest == kept + ([a[0]] + rest);
      }
    }
  }

  /** The loop keeps every item of a list that already has no duplicates
      and nothing in common with what was kept before. */
  lemma {:induction false} UniqueAfterKeepsAll<T>(eq: (T, T) -> bool, kept: seq<T>, s: seq<T>)
    requires NoDuplicates(eq, s)
    requires forall i :: 0 <= i < |s| ==> !Related(eq, s[i], kept)
    ensures UniqueAfter(eq, kept, s) == s
    decreases |s|
  {
    if s != [] {
      forall i | 0 <= i < |s[1..]|
        ensures !Related(eq, s[1..][i], kept + [s[0]])
      {
        assert s[1..][i] == s[i + 1];
        assert !eq(s[i + 1], s[0]);
        assert !Related(eq, s[i + 1], kept);
        assert forall j :: 0 <= j < |kept| ==> (kept + [s[0]])[j] == kept[j];
        assert (kept + [s[0]])[|kept|] == s[0];
      }
      UniqueAfterKeepsAll(eq, kept + [s[0]], s[1..]);
    }
  }

  /** Deduplicating a duplicate-free list changes nothing. */
  lemma UniqueOfUnique<T>(eq: (T, T) -> bool, s: seq<T>)
    requires NoDuplicates(eq, s)
    ensures Unique(eq, s) == s
  {
    UniqueAfterKeepsAll(eq, [], s);
  }

  /** With a reflexive comparison, a list free of duplicates under it has
      pairwise different items. */
  lemma NoDuplicatesDistinct<T>(eq: (T, T) -> bool, s: seq<T>)
    requires forall x :: eq(x, x)
    requires NoDuplicates(eq, s)
    ensures forall i, j :: 0 <= i < j < |s| ==> s[i] != s[j]
  {
    forall i, j | 0 <= i < j < |s|
      ensures s[i] != s[j]
    {
      assert !eq(s[j], s[i]);
    }
  }

  /** PHP's `===` on values that Dafny compares structurally. */
  function Identical<T(==)>(a: T, b: T): bool
  {
    a == b
  }

  /** Strict deduplication keeps every item once and nothing else. */
  lemma UniqueStrictMembers<T>(s: seq<T>)
    ensures var r := Unique(Identical, s);
      && (forall i, j :: 0 <= i < j < |r| ==> r[i] != r[j])
      && (forall x :: x in r <==> x in s)
  {
    var r := Unique(Identical, s);
    SubsequenceMembers(r, s);
    forall x | x in s
      ensures x in r
    {
      var i :| 0 <= i < |s| && s[i] == x;
      assert s[i] in r || Related(Identical, s[i], r);
    }
    forall i, j | 0 <= i < j < |r|
      ensures r[i] != r[j]
    {
      assert !Identical(r[j], r[i]);
    }
  }

  /** Reference definition of strict deduplication: an item is kept exactly
      when it does not occur earlier. */
  function FirstOccurrences<T(==)>(s: seq<T>): seq<T>
  {
    if s == [] then []
    else
      var p := s[..|s| - 1];
      FirstOccurrences(p) + (if s[|s| - 1] in p then [] else [s[|s| - 1]])
  }

  /** Collection::uniqueStrict keeps exactly the first occurrences. */
  lemma {:induction false} UniqueStrictIsFirstOccurrences<T>(s: seq<T>)
    ensures Unique(Identical, s) == FirstOccurrences(s)
    decreases |s|
  {
    if s != [] {
      var p, x := s[..|s| - 1], s[|s| - 1];
      assert s == p + [x];
      UniqueStrictIsFirstOccurrences(p);
      UniqueStrictSnoc(p, x);
    }
  }

  /** One more item is kept by strict deduplication exactly when it is new. */
  lemma UniqueStrictSnoc<T>(p: seq<T>, x: T)
    ensures Unique(Identical, p + [x]) == Unique(Identical, p) + (if x in p then [] else [x])
  {
    var u := Unique(Identical, p);
    UniqueAfterAppend(Identical, [], p, [x]);
    assert [] + u == u;
    SubsequenceMembers(u, p);
    if x in p {
      var i :| 0 <= i < |p| && p[i] == x;
      assert x in u || Related(Identical, x, u);
      var k :| 0 <= k < |u| && u[k] == x;
      assert Related(Identical, x, u);
    } else {
      assert !Related(Identical, x, u);
    }
  }
}
