/**
 * RuleBuilder::uniqueMerge and the token list RuleBuilder::prepend stores
 * (src/RuleBuilder.php): concatenation followed by loose deduplication, and
 * array_diff by string comparison.
 */
module Merging {
  import opened Dedup
  import opened Tokens

  /** A comparison of tokens: loose `==` for Collection::unique(), equality
      of the `(string)` casts for array_diff(). Neither is spelled out; PHP's
      conversion tables are not part of this model. */
  type TokenEq = (Token, Token) -> bool

  /** uniqueMerge($left, $right): the tokens of both lists, left first, each
      kept only when no token kept before it is loosely equal to it. */
  function UniqueMerge(looseEq: TokenEq, left: seq<Token>, right: seq<Token>): seq<Token>
  {
    Unique(looseEq, left + right)
  }

  /** The merge keeps tokens of both lists in their order, holds no two
      loosely equal tokens, and loses no token except for one loosely equal
      to a token it holds. */
  lemma UniqueMergeSpec(looseEq: TokenEq, left: seq<Token>, right: seq<Token>)
    ensures var r := UniqueMerge(looseEq, left, right);
      && Subsequence(r, left + right)
      && NoDuplicates(looseEq, r)
      && (forall i :: 0 <= i < |left| ==> left[i] in r || Related(looseEq, left[i], r))
      && (forall i :: 0 <= i < |right| ==> right[i] in r || Related(looseEq, right[i], r))
  {
    assert forall i :: 0 <= i < |left| ==> left[i] == (left + right)[i];
    assert forall i :: 0 <= i < |right| ==> right[i] == (left + right)[|left| + i];
  }

  /** The merge is the deduplicated left list followed by exactly those
      right tokens that the loop keeps after it: nothing of the left list
      moves, and no right token that matches a left one is added. */
  lemma UniqueMergeSplits(looseEq: TokenEq, left: seq<Token>, right: seq<Token>)
    ensures var u := Unique(looseEq, left);
      UniqueMerge(looseEq, left, right) == u + UniqueAfter(looseEq, u, right)
  {
    UniqueAfterAppend(looseEq, [], left, right);
    assert [] + Unique(looseEq, left) == Unique(looseEq, left);
  }

  /** When the existing list has no loose duplicates, add() and merge()
      keep it unchanged as a prefix and append, in order, the new tokens
      that are loosely equal to nothing before them. */
  lemma UniqueMergeAppends(looseEq: TokenEq, left: seq<Token>, right: seq<Token>)
    requires NoDuplicates(looseEq, left)
    ensures var r := UniqueMerge(looseEq, left, right);
      && |left| <= |r| && r[..|left|] == left
      && Subsequence(r[|left|..], right)
      && (forall i :: |left| <= i < |r| ==> !Related(looseEq, r[i], left))
  {
    UniqueMergeSplits(looseEq, left, right);
    UniqueOfUnique(looseEq, left);
    UniqueAfterSpec(looseEq, left, right);
    var r := UniqueMerge(looseEq, left, right);
    var tail := UniqueAfter(looseEq, left, right);
    assert r[..|left|] == left && r[|left|..] == tail;
    assert forall i :: |left| <= i < |r| ==> r[i] == tail[i - |left|];
  }

  /** array_values(array_diff($existing, $removed)): the existing tokens, in
      order, whose string form matches no removed token. */
  function Diff(castEq: TokenEq, existing: seq<Token>, removed: seq<Token>): (r: seq<Token>)
    ensures Subsequence(r, existing)
    ensures forall t :: t in r <==> t in existing && !Related(castEq, t, removed)
  {
    if existing == [] then []
    else
      var rest := Diff(castEq, existing[1..], removed);
      assert forall t :: t in existing <==> t == existing[0] || t in existing[1..];
      if Related(castEq, existing[0], removed) then rest
      else
        assert ([existing[0]] + rest)[1..] == rest;
        [existing[0]] + rest
  }

  /** array_diff works item by item: it distributes over concatenation, so
      every copy of a token that matches no removed token is kept. */
  lemma {:induction false} DiffAppend(castEq: TokenEq, a: seq<Token>, b: seq<Token>, removed: seq<Token>)
    ensures Diff(castEq, a + b, removed) == Diff(castEq, a, removed) + Diff(castEq, b, removed)
  {
    if a == [] {
      assert a + b == b;
    } else {
      assert (a + b)[0] == a[0] && (a + b)[1..] == a[1..] + b;
      DiffAppend(castEq, a[1..], b, removed);
    }
  }

  /** With nothing related to a removed token, every item is kept, copies
      included. */
  lemma DiffKeepsUnmatched(castEq: TokenEq, t: Token, removed: seq<Token>)
    requires !Related(castEq, t, removed)
    ensures Diff(castEq, [t, t], removed) == [t, t]
  {
    DiffAppend(castEq, [t], [t], removed);
    assert [t] + [t] == [t, t];
    assert [t][1..] == [];
  }

  /** The list prepend() stores: uniqueMerge($normalized, array_diff($existing, $normalized)). */
  function PrependTokens(looseEq: TokenEq, castEq: TokenEq, existing: seq<Token>, normalized: seq<Token>): seq<Token>
  {
    UniqueMerge(looseEq, normalized, Diff(castEq, existing, normalized))
  }

  /** prepend() puts the new tokens first, deduplicated and in their order;
      what follows is a subsequence of the existing tokens, none of which
      matches a new token, and every existing token whose string form
      matches no new token is kept, unless it is loosely equal to a token
      that is kept. */
  lemma PrependPutsNewFirst(looseEq: TokenEq, castEq: TokenEq, existing: seq<Token>, normalized: seq<Token>)
    ensures var r := PrependTokens(looseEq, castEq, existing, normalized);
      var u := Unique(looseEq, normalized);
      && |u| <= |r| && r[..|u|] == u
      && Subsequence(r[|u|..], existing)
      && (forall i :: |u| <= i < |r| ==> !Related(castEq, r[i], normalized) && !Related(looseEq, r[i], u))
      && (forall i :: 0 <= i < |existing| && !Related(castEq, existing[i], normalized) ==>
            existing[i] in r || Related(looseEq, existing[i], r))
  {
    var d := Diff(castEq, existing, normalized);
    var r := PrependTokens(looseEq, castEq, existing, normalized);
    var u := Unique(looseEq, normalized);
    var t := UniqueAfter(looseEq, u, d);
    UniqueMergeSplits(looseEq, normalized, d);
    UniqueAfterSpec(looseEq, u, d);
    assert r == u + t;
    assert r[..|u|] == u && r[|u|..] == t;
    SubsequenceTransitive(t, d, existing);
    SubsequenceMembers(t, d);
    forall i | |u| <= i < |r|
      ensures !Related(castEq, r[i], normalized) && !Related(looseEq, r[i], u)
    {
      assert r[i] == t[i - |u|];
      assert r[i] in d;
    }
    forall i | 0 <= i < |existing| && !Related(castEq, existing[i], normalized)
      ensures existing[i] in r || Related(looseEq, existing[i], r)
    {
      var x := existing[i];
      assert x in d;
      var j :| 0 <= j < |d| && d[j] == x;
      assert d[j] in t || Related(looseEq, d[j], u + t);
    }
  }

  /** When the new tokens have no loose duplicates, they come first exactly
      as normalised. */
  lemma PrependDistinctNewFirst(looseEq: TokenEq, castEq: TokenEq, existing: seq<Token>, normalized: seq<Token>)
    requires NoDuplicates(looseEq, normalized)
    ensures var r := PrependTokens(looseEq, castEq, existing, normalized);
      |normalized| <= |r| && r[..|normalized|] == normalized
  {
    PrependPutsNewFirst(looseEq, castEq, existing, normalized);
    UniqueOfUnique(looseEq, normalized);
  }

  /** New tokens that `===` keeps apart but loose `==` equates, such as
      `'0'` and `0`, are stored once: the first of them. */
  lemma PrependLooseDuplicates(looseEq: TokenEq, castEq: TokenEq)
    requires looseEq(Int(0), Text("0"))
    ensures PrependTokens(looseEq, castEq, [], [Text("0"), Int(0)]) == [Text("0")]
  {
    var n := [Text("0"), Int(0)];
    assert Diff(castEq, [], n) == [];
    assert n + [] == n;
    assert looseEq(Int(0), [Text("0")][0]);
    assert Related(looseEq, Int(0), [Text("0")]);
    assert n[1..] == [Int(0)] && [Int(0)][1..] == [];
    assert UniqueAfter(looseEq, [Text("0")], [Int(0)]) == [];
    assert UniqueAfter(looseEq, [], n) == [Text("0")] + UniqueAfter(looseEq, [] + [Text("0")], [Int(0)]);
    assert [] + [Text("0")] == [Text("0")];
  }

  /** With a reflexive loose equality every new token appears exactly once:
      no two positions of the stored list hold the same token. */
  lemma PrependOnce(looseEq: TokenEq, castEq: TokenEq, existing: seq<Token>, normalized: seq<Token>)
    requires forall t :: looseEq(t, t)
    ensures var r := PrependTokens(looseEq, castEq, existing, normalized);
      forall i, j :: 0 <= i < j < |r| ==> r[i] != r[j]
  {
    UniqueMergeSpec(looseEq, normalized, Diff(castEq, existing, normalized));
    NoDuplicatesDistinct(looseEq, PrependTokens(looseEq, castEq, existing, normalized));
  }
}
