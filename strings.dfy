/**
 * The handful of PHP string primitives the rule builder and the two console
 * commands rely on: trim, explode, implode, str_contains, str_replace on a
 * single character and ASCII lower-casing.
 */
module Strings {

  /** The characters PHP's trim() strips when no character list is given:
      space, tab, line feed, carriage return, NUL and vertical tab. */
  const Whitespace: set<char> := {' ', '\t', '\n', '\r', '\0', 11 as char}

  /** Strips the longest prefix made of characters in `cut`. */
  function TrimStart(s: string, cut: set<char>): (r: string)
    ensures |r| <= |s| && r == s[|s| - |r|..]
    ensures forall i :: 0 <= i < |s| - |r| ==> s[i] in cut
    ensures r != [] ==> r[0] !in cut
  {
    if s != [] && s[0] in cut then TrimStart(s[1..], cut) else s
  }

  /** Strips the longest suffix made of characters in `cut`. */
  function TrimEnd(s: string, cut: set<char>): (r: string)
    ensures |r| <= |s| && r == s[..|r|]
    ensures forall i :: |r| <= i < |s| ==> s[i] in cut
    ensures r != [] ==> r[|r| - 1] !in cut
  {
    if s != [] && s[|s| - 1] in cut then TrimEnd(s[..|s| - 1], cut) else s
  }

  /** PHP trim($s, $cut). */
  function Trim(s: string, cut: set<char>): string
  {
    TrimEnd(TrimStart(s, cut), cut)
  }

  /** What trim() leaves: a contiguous piece of `s`, with only characters of
      `cut` cut off before and after it, that neither starts nor ends with a
      character of `cut`, and that is empty exactly when every character of
      `s` is in `cut`. */
  lemma TrimSpec(s: string, cut: set<char>)
    ensures var r := Trim(s, cut);
      var i := |s| - |TrimStart(s, cut)|;
      && i + |r| <= |s| && r == s[i..i + |r|]
      && (forall j :: 0 <= j < i ==> s[j] in cut)
      && (forall j :: i + |r| <= j < |s| ==> s[j] in cut)
      && (r == [] <==> forall j :: 0 <= j < |s| ==> s[j] in cut)
      && (r != [] ==> r[0] !in cut && r[|r| - 1] !in cut)
      && (forall c :: c in r ==> c in s)
  {
    TrimPiece(s, cut);
    TrimEmpty(s, cut);
    TrimChars(s, cut);
  }

  /** The kept piece sits at the offset where TrimStart stops. */
  lemma TrimPiece(s: string, cut: set<char>)
    ensures var r := Trim(s, cut);
      var i := |s| - |TrimStart(s, cut)|;
      && i + |r| <= |s| && r == s[i..i + |r|]
      && (forall j :: i + |r| <= j < |s| ==> s[j] in cut)
  {
    var t := TrimStart(s, cut);
    var r := TrimEnd(t, cut);
    var i := |s| - |t|;
    assert t == s[i..] && r == t[..|r|];
    assert r == s[i..i + |r|];
    forall j | i + |r| <= j < |s|
      ensures s[j] in cut
    {
      assert s[j] == t[j - i];
    }
  }

  /** trim() gives nothing exactly when every character is cut. */
  lemma TrimEmpty(s: string, cut: set<char>)
    ensures Trim(s, cut) == [] <==> forall j :: 0 <= j < |s| ==> s[j] in cut
  {
    var t := TrimStart(s, cut);
    if t != [] {
      assert t[0] == s[|s| - |t|];
    }
  }

  /** trim() keeps only characters of its input. */
  lemma TrimChars(s: string, cut: set<char>)
    ensures forall c :: c in Trim(s, cut) ==> c in s
  {
    var t := TrimStart(s, cut);
    var r := Trim(s, cut);
    forall c | c in r
      ensures c in s
    {
      var k :| 0 <= k < |r| && r[k] == c;
      assert r[k] == t[k] == s[|s| - |t| + k];
    }
  }

  /** Characters of `cut` in front of a string are all trimmed away. */
  lemma {:induction false} TrimStartPrefix(pre: string, x: string, cut: set<char>)
    requires forall j :: 0 <= j < |pre| ==> pre[j] in cut
    ensures TrimStart(pre + x, cut) == TrimStart(x, cut)
  {
    if pre != [] {
      assert (pre + x)[0] == pre[0];
      assert (pre + x)[1..] == pre[1..] + x;
      TrimStartPrefix(pre[1..], x, cut);
    } else {
      assert pre + x == x;
    }
  }

  /** Characters of `cut` behind a string are all trimmed away. */
  lemma {:induction false} TrimEndSuffix(x: string, post: string, cut: set<char>)
    requires forall j :: 0 <= j < |post| ==> post[j] in cut
    ensures TrimEnd(x + post, cut) == TrimEnd(x, cut)
  {
    if post != [] {
      var n := |post| - 1;
      assert (x + post)[|x + post| - 1] == post[n];
      assert (x + post)[..|x + post| - 1] == x + post[..n];
      TrimEndSuffix(x, post[..n], cut);
    } else {
      assert x + post == x;
    }
  }

  /** Trimming the front does not reach what follows a non-blank string. */
  lemma {:induction false} TrimStartAppend(x: string, post: string, cut: set<char>)
    requires TrimStart(x, cut) != []
    ensures TrimStart(x + post, cut) == TrimStart(x, cut) + post
  {
    assert (x + post)[0] == x[0];
    if x[0] in cut {
      assert (x + post)[1..] == x[1..] + post;
      TrimStartAppend(x[1..], post, cut);
    }
  }

  /** Padding with characters of `cut` on either side does not change what
      trim() leaves. */
  lemma TrimPadded(pre: string, w: string, post: string, cut: set<char>)
    requires forall j :: 0 <= j < |pre| ==> pre[j] in cut
    requires forall j :: 0 <= j < |post| ==> post[j] in cut
    ensures Trim(pre + w + post, cut) == Trim(w, cut)
  {
    assert pre + w + post == pre + (w + post);
    TrimStartPrefix(pre, w + post, cut);
    if TrimStart(w, cut) != [] {
      TrimStartAppend(w, post, cut);
      TrimEndSuffix(TrimStart(w, cut), post, cut);
    } else {
      TrimStartPrefix(w, post, cut);
      TrimStartPrefix(post, [], cut);
      assert post + [] == post;
    }
  }

  /** Laravel's blank() on a string: empty once trimmed. */
  predicate Blank(s: string)
  {
    Trim(s, Whitespace) == []
  }

  /** A string that starts with a visible character is not blank. */
  lemma NotBlank(s: string)
    requires s != [] && s[0] !in Whitespace
    ensures !Blank(s)
  {
  }

  /** Trimming a string none of whose characters is in `cut` changes nothing. */
  lemma TrimNothing(s: string, cut: set<char>)
    requires forall i :: 0 <= i < |s| ==> s[i] !in cut
    ensures Trim(s, cut) == s
  {
    var t := TrimStart(s, cut);
    assert |t| == |s|;
    assert forall i :: 0 <= i < |t| ==> t[i] !in cut;
  }

  /** Trimming leaves a string alone that already starts and ends outside `cut`. */
  lemma TrimUnchanged(s: string, cut: set<char>)
    requires s != [] && s[0] !in cut && s[|s| - 1] !in cut
    ensures Trim(s, cut) == s
  {
  }

  /** PHP explode($sep, $s) for a one-character separator: the pieces
      between separators, always at least one. */
  function Split(s: string, sep: char): (pieces: seq<string>)
    ensures |pieces| >= 1
    ensures forall i :: 0 <= i < |pieces| ==> sep !in pieces[i]
  {
    if s == [] then [[]]
    else
      var rest := Split(s[1..], sep);
      if s[0] == sep then [[]] + rest
      else [[s[0]] + rest[0]] + rest[1..]
  }

  /** PHP implode($glue, $pieces). */
  function Join(pieces: seq<string>, glue: string): string
  {
    if pieces == [] then []
    else if |pieces| == 1 then pieces[0]
    else pieces[0] + glue + Join(pieces[1..], glue)
  }

  /** An implosion starts with its first piece. */
  lemma JoinStartsWith(pieces: seq<string>, glue: string)
    requires |pieces| >= 1
    ensures pieces[0] <= Join(pieces, glue)
  {
    if |pieces| > 1 {
      assert Join(pieces, glue) == pieces[0] + (glue + Join(pieces[1..], glue));
    }
  }

  /** Gluing the pieces of explode back together restores the string. */
  lemma {:induction false} JoinSplit(s: string, sep: char)
    ensures Join(Split(s, sep), [sep]) == s
  {
    if s != [] {
      var rest := Split(s[1..], sep);
      JoinSplit(s[1..], sep);
      if s[0] == sep {
        assert Split(s, sep) == [[]] + rest;
        assert s == [sep] + s[1..];
      } else {
        var p := Split(s, sep);
        assert p == [[s[0]] + rest[0]] + rest[1..];
        if |rest| == 1 {
          assert Join(rest, [sep]) == rest[0];
        } else {
          assert Join(rest, [sep]) == rest[0] + [sep] + Join(rest[1..], [sep]);
          assert p[1..] == rest[1..];
        }
        assert s == [s[0]] + s[1..];
      }
    }
  }

  /** Splitting a string that starts with a separator-free piece `a`. */
  lemma {:induction false} SplitAfterPiece(a: string, t: string, sep: char)
    requires sep !in a
    ensures Split(a + t, sep) == [a + Split(t, sep)[0]] + Split(t, sep)[1..]
  {
    if a != [] {
      assert (a + t)[1..] == a[1..] + t;
      assert (a + t)[0] == a[0];
      SplitAfterPiece(a[1..], t, sep);
      assert [a[0]] + (a[1..] + Split(t, sep)[0]) == a + Split(t, sep)[0];
    } else {
      var p := Split(t, sep);
      assert a + t == t;
      assert a + p[0] == p[0];
      assert [p[0]] + p[1..] == p;
    }
  }

  /** Exploding the implosion of separator-free pieces gives the pieces back. */
  lemma {:induction false} SplitJoin(pieces: seq<string>, sep: char)
    requires |pieces| >= 1
    requires forall i :: 0 <= i < |pieces| ==> sep !in pieces[i]
    ensures Split(Join(pieces, [sep]), sep) == pieces
  {
    if |pieces| == 1 {
      SplitAfterPiece(pieces[0], [], sep);
      assert pieces[0] + [] == pieces[0];
    } else {
      var tail := Join(pieces[1..], [sep]);
      SplitJoin(pieces[1..], sep);
      assert Join(pieces, [sep]) == pieces[0] + ([sep] + tail);
      SplitAfterPiece(pieces[0], [sep] + tail, sep);
      assert ([sep] + tail)[1..] == tail;
      assert Split([sep] + tail, sep) == [[]] + Split(tail, sep);
      assert pieces[0] + [] == pieces[0];
    }
  }

  /** A separator-free string explodes into itself alone. */
  lemma SplitWithoutSeparator(s: string, sep: char)
    requires sep !in s
    ensures Split(s, sep) == [s]
  {
    SplitJoin([s], sep);
  }

  /** `sub` occurs somewhere in `s` (the empty string occurs everywhere). */
  predicate Occurs(s: string, sub: string)
  {
    sub <= s || (s != [] && Occurs(s[1..], sub))
  }

  /** `sub` starts at position `i` of `s`. */
  predicate OccursAtIndex(s: string, sub: string, i: int)
  {
    0 <= i <= |s| - |sub| && s[i..i + |sub|] == sub
  }

  /** `Occurs` is the search for a position at which `sub` starts. */
  lemma {:induction false} OccursAt(s: string, sub: string)
    ensures Occurs(s, sub) <==> exists i :: OccursAtIndex(s, sub, i)
  {
    if sub <= s {
      assert OccursAtIndex(s, sub, 0);
    } else if s == [] {
    } else {
      OccursAt(s[1..], sub);
      if exists i :: OccursAtIndex(s, sub, i) {
        var i :| OccursAtIndex(s, sub, i);
        assert i != 0;
        assert OccursAtIndex(s[1..], sub, i - 1);
      }
      if Occurs(s[1..], sub) {
        var i :| OccursAtIndex(s[1..], sub, i);
        assert OccursAtIndex(s, sub, i + 1);
      }
    }
  }

  /** A string contains itself wherever it is appended. */
  lemma {:induction false} OccursAtEnd(s: string, sub: string)
    ensures Occurs(s + sub, sub)
  {
    if s != [] {
      assert (s + sub)[1..] == s[1..] + sub;
      OccursAtEnd(s[1..], sub);
    } else {
      assert s + sub == sub;
    }
  }

  /** Laravel's Str::contains for one needle: an empty needle is never found. */
  predicate Contains(s: string, sub: string)
  {
    sub != [] && Occurs(s, sub)
  }

  /** str_replace of one character by another. */
  function ReplaceChar(s: string, from: char, to: char): (r: string)
    ensures |r| == |s|
    ensures from != to ==> from !in r
    ensures forall i :: 0 <= i < |s| ==> r[i] == (if s[i] == from then to else s[i])
  {
    if s == [] then []
    else [if s[0] == from then to else s[0]] + ReplaceChar(s[1..], from, to)
  }

  /** Replacing a character that does not occur changes nothing. */
  lemma ReplaceAbsent(s: string, from: char, to: char)
    requires forall i :: 0 <= i < |s| ==> s[i] != from
    ensures ReplaceChar(s, from, to) == s
  {
  }

  /** Replacing a character distributes over concatenation. */
  lemma ReplaceAppend(a: string, b: string, from: char, to: char)
    ensures ReplaceChar(a + b, from, to) == ReplaceChar(a, from, to) + ReplaceChar(b, from, to)
  {
    var l, r := ReplaceChar(a + b, from, to), ReplaceChar(a, from, to) + ReplaceChar(b, from, to);
    assert forall i :: 0 <= i < |a| ==> (a + b)[i] == a[i];
    assert forall i :: |a| <= i < |a + b| ==> (a + b)[i] == b[i - |a|];
    assert |l| == |r|;
    forall i | 0 <= i < |l|
      ensures l[i] == r[i]
    {
    }
  }

  /** Replacing the glue of an implosion by another character re-glues the
      same pieces, provided no piece holds the old glue. */
  lemma {:induction false} ReplaceJoin(pieces: seq<string>, from: char, to: char)
    requires forall i :: 0 <= i < |pieces| ==> from !in pieces[i]
    ensures ReplaceChar(Join(pieces, [from]), from, to) == Join(pieces, [to])
  {
    if pieces != [] {
      var head := pieces[0];
      assert from !in head;
      ReplaceAbsent(head, from, to);
      if |pieces| > 1 {
        var rest := pieces[1..];
        assert forall i :: 0 <= i < |rest| ==> rest[i] == pieces[i + 1];
        ReplaceJoin(rest, from, to);
        var tail := Join(rest, [from]);
        assert Join(pieces, [from]) == (head + [from]) + tail;
        ReplaceAppend(head + [from], tail, from, to);
        ReplaceAppend(head, [from], from, to);
        assert ReplaceChar([from], from, to) == [to];
        assert Join(pieces, [to]) == (head + [to]) + Join(rest, [to]);
      }
    }
  }

  /** An implosion ends with its last piece. */
  lemma {:induction false} JoinEndsWith(pieces: seq<string>, glue: string)
    requires |pieces| >= 1
    ensures var j, last := Join(pieces, glue), pieces[|pieces| - 1];
      |last| <= |j| && j[|j| - |last|..] == last
  {
    if |pieces| > 1 {
      JoinEndsWith(pieces[1..], glue);
      var tail := Join(pieces[1..], glue);
      assert Join(pieces, glue) == (pieces[0] + glue) + tail;
    }
  }

  /** Every character of an implosion comes from the glue or a piece. */
  lemma {:induction false} JoinMembers(pieces: seq<string>, glue: string, c: char)
    requires c in Join(pieces, glue)
    ensures c in glue || exists i :: 0 <= i < |pieces| && c in pieces[i]
  {
    if |pieces| > 1 && c !in pieces[0] && c !in glue {
      JoinMembers(pieces[1..], glue, c);
      var i :| 0 <= i < |pieces[1..]| && c in pieces[1..][i];
      assert c in pieces[i + 1];
    }
  }

  /** strtolower on ASCII letters; every other character is kept. */
  function LowerChar(c: char): char
  {
    if 'A' <= c <= 'Z' then (c as int + 32) as char else c
  }

  function Lower(s: string): (r: string)
    ensures |r| == |s|
    ensures forall i :: 0 <= i < |s| ==> r[i] == LowerChar(s[i])
  {
    if s == [] then [] else [LowerChar(s[0])] + Lower(s[1..])
  }

  /** Lower-casing twice is lower-casing once. */
  lemma LowerIdempotent(s: string)
    ensures Lower(Lower(s)) == Lower(s)
  {
    var l := Lower(s);
    assert forall i :: 0 <= i < |s| ==> LowerChar(l[i]) == l[i];
  }
}
