/**
 * RuleBuilder::normalizeRules (src/RuleBuilder.php): flattening raw rule
 * specifications into an ordered, strictly deduplicated list of tokens.
 */
module Tokens {
  import opened Strings
  import opened Dedup

  /** One atomic rule as the builder stores it: a string such as "required"
      or "max:255", an integer, or a rule object / closure that is known only
      by its identity. PHP's `===` on these is Dafny's structural equality:
      Text("0") and Int(0) differ, two Opaque tokens are equal exactly when
      they name the same object. */
  datatype Token = Text(s: string) | Int(n: int) | Opaque(id: nat)

  /** A raw rule specification: null, a (pipe-delimited) string, an integer,
      a rule object or closure, or an array of further specifications. */
  datatype RuleSpec = Null | Str(s: string) | Num(n: int) | Obj(id: nat) | List(items: seq<RuleSpec>)

  /** Strings starting with this prefix are never split on `|`. */
  const RegexPrefix: string := "regex:"

  /** Laravel's blank() on a specification: null, a blank string or an
      empty array (integers and objects are never blank). */
  predicate IsBlank(spec: RuleSpec)
  {
    spec.Null? || (spec.Str? && Blank(spec.s)) || (spec.List? && spec.items == [])
  }

  /** A piece of a split pipe string as it is stored: non-empty, without
      surrounding whitespace and without `|`. */
  predicate Clean(s: string)
  {
    s != [] && s[0] !in Whitespace && s[|s| - 1] !in Whitespace && '|' !in s
  }

  /** Every Text token is a whole `regex:` string or a clean piece. */
  predicate WellFormed(t: Token)
  {
    t.Text? ==> RegexPrefix <= t.s || Clean(t.s)
  }

  function Texts(words: seq<string>): (r: seq<Token>)
    ensures |r| == |words| && forall i :: 0 <= i < |words| ==> r[i] == Text(words[i])
  {
    if words == [] then [] else [Text(words[0])] + Texts(words[1..])
  }

  /** `array_map('trim', ...)` followed by dropping the blank pieces. */
  function Segments(pieces: seq<string>): (r: seq<Token>)
    ensures |r| <= |pieces|
    ensures forall i :: 0 <= i < |r| ==> r[i].Text? && r[i].s != []
  {
    if pieces == [] then []
    else
      var t := Trim(pieces[0], Whitespace);
      var rest := Segments(pieces[1..]);
      if t == [] then rest else [Text(t)] + rest
  }

  /** Pieces of a split are free of `|`, so what is kept of them is clean. */
  lemma {:induction false} SegmentsClean(pieces: seq<string>)
    requires forall i :: 0 <= i < |pieces| ==> '|' !in pieces[i]
    ensures forall i :: 0 <= i < |Segments(pieces)| ==> Clean(Segments(pieces)[i].s)
  {
    if pieces != [] {
      var t := Trim(pieces[0], Whitespace);
      assert forall i :: 0 <= i < |pieces[1..]| ==> pieces[1..][i] == pieces[i + 1];
      SegmentsClean(pieces[1..]);
      if t != [] {
        assert '|' !in t by {
          assert '|' !in pieces[0];
        }
        assert Clean(t);
      }
    }
  }

  /** The tokens of one string: none if it is blank, the whole string if it
      starts with `regex:`, otherwise its trimmed non-blank `|`-pieces. */
  function StringTokens(s: string): (r: seq<Token>)
    ensures Blank(s) ==> r == []
    ensures !Blank(s) && RegexPrefix <= s ==> r == [Text(s)]
    ensures !(RegexPrefix <= s) ==> forall i :: 0 <= i < |r| ==> r[i].Text? && Clean(r[i].s)
  {
    if Blank(s) then []
    else if RegexPrefix <= s then [Text(s)]
    else
      SegmentsClean(Split(s, '|'));
      Segments(Split(s, '|'))
  }

  /** The recursive `$normalize` closure on one specification. */
  function Flatten(spec: RuleSpec): (r: seq<Token>)
    ensures forall i :: 0 <= i < |r| ==> WellFormed(r[i])
    decreases spec, 1
  {
    match spec
    case Null => []
    case Str(s) => StringTokens(s)
    case Num(n) => [Int(n)]
    case Obj(id) => [Opaque(id)]
    case List(items) => FlattenAll(items)
  }

  /** `flatMap` of the closure over a list of specifications, in order. */
  function FlattenAll(specs: seq<RuleSpec>): (r: seq<Token>)
    ensures forall i :: 0 <= i < |r| ==> WellFormed(r[i])
    decreases specs, 0
  {
    if specs == [] then [] else Flatten(specs[0]) + FlattenAll(specs[1..])
  }

  /** normalizeRules(...$specs): flatten every argument left to right, then
      keep the first occurrence of each token under `===`. */
  function Normalize(specs: seq<RuleSpec>): (r: seq<Token>)
    ensures forall i, j :: 0 <= i < j < |r| ==> r[i] != r[j]
    ensures forall t :: t in r <==> t in FlattenAll(specs)
    ensures forall i :: 0 <= i < |r| ==> WellFormed(r[i])
  {
    var flat := FlattenAll(specs);
    var r := Unique(Identical, flat);
    UniqueStrictMembers(flat);
    assert forall t :: t in flat ==> WellFormed(t);
    r
  }

  /** Flattening distributes over concatenation: depth-first, left to right. */
  lemma {:induction false} FlattenAllAppend(a: seq<RuleSpec>, b: seq<RuleSpec>)
    ensures FlattenAll(a + b) == FlattenAll(a) + FlattenAll(b)
  {
    if a != [] {
      assert (a + b)[0] == a[0];
      assert (a + b)[1..] == a[1..] + b;
      FlattenAllAppend(a[1..], b);
    } else {
      assert a + b == b;
    }
  }

  /** Blank specifications contribute nothing. */
  lemma {:induction false} FlattenAllBlank(specs: seq<RuleSpec>)
    requires forall i :: 0 <= i < |specs| ==> IsBlank(specs[i])
    ensures FlattenAll(specs) == []
  {
    if specs != [] {
      assert forall i :: 0 <= i < |specs[1..]| ==> specs[1..][i] == specs[i + 1];
      FlattenAllBlank(specs[1..]);
      assert Flatten(specs[0]) == [];
    }
  }

  /** Normalising no arguments, or only null, blank strings and empty
      arrays, gives no tokens. */
  lemma NormalizeBlank(specs: seq<RuleSpec>)
    requires forall i :: 0 <= i < |specs| ==> IsBlank(specs[i])
    ensures Normalize(specs) == []
  {
    FlattenAllBlank(specs);
  }

  /** Passing the specifications one by one or as one array is the same. */
  lemma NormalizeVariadicIsArray(specs: seq<RuleSpec>)
    ensures Normalize(specs) == Normalize([List(specs)])
  {
    assert [List(specs)][1..] == [];
    assert FlattenAll([List(specs)]) == Flatten(List(specs)) + FlattenAll([]);
    assert FlattenAll([List(specs)]) == FlattenAll(specs);
  }

  /** Nested arrays flatten depth-first, left to right. */
  lemma NormalizeNested(outer: seq<RuleSpec>, inner: seq<RuleSpec>, rest: seq<RuleSpec>)
    ensures Normalize(outer + [List(inner)] + rest) == Normalize(outer + inner + rest)
  {
    FlattenAllAppend(outer + [List(inner)], rest);
    FlattenAllAppend(outer, [List(inner)]);
    FlattenAllAppend(outer + inner, rest);
    FlattenAllAppend(outer, inner);
    assert [List(inner)][1..] == [];
    assert FlattenAll([List(inner)]) == FlattenAll(inner) + FlattenAll([]);
    assert FlattenAll(outer + [List(inner)] + rest) == FlattenAll(outer + inner + rest);
  }

  /** The normalised list is the flattened list with every token kept at its
      first occurrence only. */
  lemma NormalizeKeepsFirstOccurrences(specs: seq<RuleSpec>)
    ensures Normalize(specs) == FirstOccurrences(FlattenAll(specs))
  {
    UniqueStrictIsFirstOccurrences(FlattenAll(specs));
  }

  /** A token handed back in as a specification. */
  function AsSpec(t: Token): RuleSpec
  {
    match t
    case Text(s) => Str(s)
    case Int(n) => Num(n)
    case Opaque(id) => Obj(id)
  }

  function AsSpecs(ts: seq<Token>): (r: seq<RuleSpec>)
    ensures |r| == |ts| && forall i :: 0 <= i < |ts| ==> r[i] == AsSpec(ts[i])
  {
    if ts == [] then [] else [AsSpec(ts[0])] + AsSpecs(ts[1..])
  }

  /** A stored token, handed back in, yields exactly itself. */
  lemma FlattenToken(t: Token)
    requires WellFormed(t)
    ensures Flatten(AsSpec(t)) == [t]
  {
    if t.Text? {
      var s := t.s;
      assert s[0] !in Whitespace by {
        if RegexPrefix <= s {
          assert s[0] == 'r';
        }
      }
      assert !Blank(s);
      if !(RegexPrefix <= s) {
        SplitWithoutSeparator(s, '|');
        TrimUnchanged(s, Whitespace);
        assert Segments([s]) == [Text(s)] + Segments([]);
      }
    }
  }

  lemma {:induction false} FlattenAsSpecs(ts: seq<Token>)
    requires forall i :: 0 <= i < |ts| ==> WellFormed(ts[i])
    ensures FlattenAll(AsSpecs(ts)) == ts
  {
    if ts != [] {
      var specs := AsSpecs(ts);
      assert specs[1..] == AsSpecs(ts[1..]);
      FlattenToken(ts[0]);
      FlattenAsSpecs(ts[1..]);
      assert ts == [ts[0]] + ts[1..];
    }
  }

  /** Normalising an already normalised list hands it back unchanged. */
  lemma NormalizeIdempotent(specs: seq<RuleSpec>)
    ensures Normalize(AsSpecs(Normalize(specs))) == Normalize(specs)
  {
    var r := Normalize(specs);
    FlattenAsSpecs(r);
    UniqueOfUnique(Identical, r);
  }

  /** A pipe string made of clean rules splits back into those rules. */
  lemma PipeRoundTrip(words: seq<string>)
    requires |words| >= 1
    requires forall i {:trigger words[i]} :: 0 <= i < |words| ==> Clean(words[i])
    requires !(RegexPrefix <= Join(words, "|"))
    ensures StringTokens(Join(words, "|")) == Texts(words)
  {
    var s := Join(words, "|");
    JoinClean(words);
    StringTokensSplit(s);
    assert Split(s, '|') == words;
    SegmentsOfClean(words);
  }

  lemma JoinClean(words: seq<string>)
    requires |words| >= 1
    requires forall i {:trigger words[i]} :: 0 <= i < |words| ==> Clean(words[i])
    ensures Split(Join(words, "|"), '|') == words
    ensures !Blank(Join(words, "|"))
  {
    var s := Join(words, "|");
    forall i | 0 <= i < |words|
      ensures '|' !in words[i]
    {
      assert Clean(words[i]);
    }
    SplitJoin(words, '|');
    JoinStartsWith(words, "|");
    assert words[0] != [] && words[0][0] !in Whitespace by {
      assert Clean(words[0]);
    }
    assert s[0] == words[0][0];
    NotBlank(s);
  }

  lemma {:induction false} SegmentsOfClean(words: seq<string>)
    requires forall i {:trigger words[i]} :: 0 <= i < |words| ==> Clean(words[i])
    ensures Segments(words) == Texts(words)
  {
    if words != [] {
      TrimUnchanged(words[0], Whitespace);
      assert forall i :: 0 <= i < |words[1..]| ==> words[1..][i] == words[i + 1];
      SegmentsOfClean(words[1..]);
      assert Texts(words) == [Text(words[0])] + Texts(words[1..]);
    }
  }
  /** Pairwise different stored tokens come out of normalisation as they
      went in: a string and an integer with the same digits, or two
      different objects, are all kept. */
  lemma NormalizeDistinctTokens(ts: seq<Token>)
    requires forall i :: 0 <= i < |ts| ==> WellFormed(ts[i])
    requires forall i, j :: 0 <= i < j < |ts| ==> ts[i] != ts[j]
    ensures Normalize(AsSpecs(ts)) == ts
  {
    FlattenAsSpecs(ts);
    assert NoDuplicates(Identical, ts);
    UniqueOfUnique(Identical, ts);
  }

  /** `'0'` and `0` are different under `===`; both stay, in order. */
  lemma NormalizeKeepsTextAndInt()
    ensures Normalize([Str("0"), Num(0)]) == [Text("0"), Int(0)]
  {
    var ts := [Text("0"), Int(0)];
    assert Clean("0");
    assert AsSpecs(ts) == [Str("0"), Num(0)];
    NormalizeDistinctTokens(ts);
  }

  /** The same rule object or closure given twice is kept once. */
  lemma NormalizeSameObjectOnce(id: nat, s: string)
    requires WellFormed(Text(s))
    ensures Normalize([Obj(id), Obj(id), Str(s)]) == [Opaque(id), Text(s)]
  {
    var ts := [Opaque(id), Opaque(id), Text(s)];
    assert AsSpecs(ts) == [Obj(id), Obj(id), Str(s)];
    FlattenAsSpecs(ts);
    UniqueRepeated(Opaque(id), Text(s));
  }

  /** Strict deduplication of `[x, x, y]` with `y` different from `x`. */
  lemma UniqueRepeated<T>(x: T, y: T)
    requires x != y
    ensures Unique(Identical, [x, x, y]) == [x, y]
  {
    UniqueOfOne(x);
    UniqueStrictSnoc([x], x);
    assert [x] + [x] == [x, x];
    assert Unique(Identical, [x, x]) == [x];
    UniqueStrictSnoc([x, x], y);
    assert [x, x] + [y] == [x, x, y];
    assert y !in [x, x];
  }

  lemma UniqueOfOne<T>(x: T)
    ensures Unique(Identical, [x]) == [x]
  {
    UniqueStrictSnoc([], x);
    assert [] + [x] == [x];
  }

  /** The pieces of a split contribute their tokens one after the other. */
  lemma {:induction false} SegmentsAppend(a: seq<string>, b: seq<string>)
    ensures Segments(a + b) == Segments(a) + Segments(b)
  {
    if a == [] {
      assert a + b == b;
    } else {
      assert (a + b)[0] == a[0];
      assert (a + b)[1..] == a[1..] + b;
      SegmentsAppend(a[1..], b);
    }
  }

  /** One piece gives its trimmed text, or nothing when it is blank. */
  lemma SegmentsOne(w: string)
    ensures Segments([w]) == if Blank(w) then [] else [Text(Trim(w, Whitespace))]
  {
    assert [w][1..] == [];
  }

  /** A string glued from pipe-free pieces gives the tokens of its pieces,
      in order, unless it starts with `regex:`. */
  lemma StringTokensOfPieces(ws: seq<string>)
    requires |ws| >= 1 && forall i :: 0 <= i < |ws| ==> '|' !in ws[i]
    requires !(RegexPrefix <= Join(ws, "|"))
    ensures StringTokens(Join(ws, "|")) == Segments(ws)
  {
    var s := Join(ws, "|");
    SplitJoin(ws, '|');
    if |ws| >= 2 {
      JoinedPipe(ws);
      PipeNotBlank(s);
      StringTokensSplit(s);
    } else {
      assert ws == [ws[0]] && s == ws[0];
      SegmentsOne(ws[0]);
      if !Blank(s) {
        StringTokensSplit(s);
      }
    }
  }

  lemma JoinedPipe(ws: seq<string>)
    requires |ws| >= 2
    ensures '|' in Join(ws, "|")
  {
    var s := Join(ws, "|");
    assert s == ws[0] + ("|" + Join(ws[1..], "|"));
    assert s[|ws[0]|] == '|';
  }

  lemma PipeNotBlank(s: string)
    requires '|' in s
    ensures !Blank(s)
  {
    var k :| 0 <= k < |s| && s[k] == '|';
    TrimSpec(s, Whitespace);
    assert s[k] !in Whitespace;
  }

  lemma StringTokensSplit(s: string)
    requires !Blank(s) && !(RegexPrefix <= s)
    ensures StringTokens(s) == Segments(Split(s, '|'))
  {
  }

  /** Whitespace around a piece of a pipe string makes no difference. */
  lemma PipeTrimsPieces(ws: seq<string>, i: nat, pre: string, post: string)
    requires i < |ws| && forall k :: 0 <= k < |ws| ==> '|' !in ws[k]
    requires forall j :: 0 <= j < |pre| ==> pre[j] in Whitespace
    requires forall j :: 0 <= j < |post| ==> post[j] in Whitespace
    requires !(RegexPrefix <= Join(ws, "|"))
    requires !(RegexPrefix <= Join(ws[i := pre + ws[i] + post], "|"))
    ensures StringTokens(Join(ws[i := pre + ws[i] + post], "|")) == StringTokens(Join(ws, "|"))
  {
    var p := pre + ws[i] + post;
    assert '|' !in pre && '|' !in post;
    PipeFreePieces(ws, i, p);
    StringTokensOfPieces(ws);
    StringTokensOfPieces(ws[i := p]);
    TrimPadded(pre, ws[i], post, Whitespace);
    SegmentsOne(ws[i]);
    SegmentsOne(p);
    SegmentsReplace(ws, i, p);
  }

  lemma PipeFreePieces(ws: seq<string>, i: nat, p: string)
    requires i < |ws| && forall k :: 0 <= k < |ws| ==> '|' !in ws[k]
    requires '|' !in p
    ensures var padded := ws[i := p];
      forall k :: 0 <= k < |padded| ==> '|' !in padded[k]
  {
  }

  /** Replacing a piece by one with the same tokens keeps the tokens. */
  lemma SegmentsReplace(ws: seq<string>, i: nat, p: string)
    requires i < |ws| && Segments([p]) == Segments([ws[i]])
    ensures Segments(ws[i := p]) == Segments(ws)
  {
    assert ws == ws[..i] + [ws[i]] + ws[i + 1..];
    assert ws[i := p] == ws[..i] + [p] + ws[i + 1..];
    SegmentsAppend(ws[..i] + [ws[i]], ws[i + 1..]);
    SegmentsAppend(ws[..i], [ws[i]]);
    SegmentsAppend(ws[..i] + [p], ws[i + 1..]);
    SegmentsAppend(ws[..i], [p]);
  }

  /** A blank piece anywhere in a pipe string makes no difference. */
  lemma PipeDropsBlankPiece(front: seq<string>, b: string, back: seq<string>)
    requires 1 <= |front + back|
    requires forall k :: 0 <= k < |front| ==> '|' !in front[k]
    requires forall k :: 0 <= k < |back| ==> '|' !in back[k]
    requires '|' !in b && Blank(b)
    requires !(RegexPrefix <= Join(front + back, "|"))
    requires !(RegexPrefix <= Join(front + [b] + back, "|"))
    ensures StringTokens(Join(front + [b] + back, "|")) == StringTokens(Join(front + back, "|"))
  {
    PipeWithBlank(front, b, back);
    PipeWithout(front, back);
  }

  lemma PipeWithBlank(front: seq<string>, b: string, back: seq<string>)
    requires forall k :: 0 <= k < |front| ==> '|' !in front[k]
    requires forall k :: 0 <= k < |back| ==> '|' !in back[k]
    requires '|' !in b && Blank(b)
    requires !(RegexPrefix <= Join(front + [b] + back, "|"))
    ensures StringTokens(Join(front + [b] + back, "|")) == Segments(front + back)
  {
    PipeFreeAround(front, [b], back);
    StringTokensOfPieces(front + [b] + back);
    SegmentsOne(b);
    SegmentsBetween(front, [b], back);
  }

  lemma PipeWithout(front: seq<string>, back: seq<string>)
    requires 1 <= |front + back|
    requires forall k :: 0 <= k < |front| ==> '|' !in front[k]
    requires forall k :: 0 <= k < |back| ==> '|' !in back[k]
    requires !(RegexPrefix <= Join(front + back, "|"))
    ensures StringTokens(Join(front + back, "|")) == Segments(front + back)
  {
    PipeFreeConcat(front, back);
    StringTokensOfPieces(front + back);
  }

  lemma PipeFreeConcat(front: seq<string>, back: seq<string>)
    requires forall k :: 0 <= k < |front| ==> '|' !in front[k]
    requires forall k :: 0 <= k < |back| ==> '|' !in back[k]
    ensures var all := front + back;
      forall k :: 0 <= k < |all| ==> '|' !in all[k]
  {
    var all := front + back;
    forall k | 0 <= k < |all|
      ensures '|' !in all[k]
    {
      if k < |front| {
        assert all[k] == front[k];
      } else {
        assert all[k] == back[k - |front|];
      }
    }
  }

  lemma PipeFreeAround(front: seq<string>, vs: seq<string>, back: seq<string>)
    requires forall k :: 0 <= k < |front| ==> '|' !in front[k]
    requires forall k :: 0 <= k < |vs| ==> '|' !in vs[k]
    requires forall k :: 0 <= k < |back| ==> '|' !in back[k]
    ensures var all := front + vs + back;
      forall k :: 0 <= k < |all| ==> '|' !in all[k]
  {
    var all := front + vs + back;
    forall k | 0 <= k < |all|
      ensures '|' !in all[k]
    {
      if k < |front| {
        assert all[k] == front[k];
      } else if k < |front| + |vs| {
        assert all[k] == vs[k - |front|];
      } else {
        assert all[k] == back[k - |front| - |vs|];
      }
    }
  }

  /** Inserting pieces without tokens keeps the tokens. */
  lemma SegmentsBetween(front: seq<string>, vs: seq<string>, back: seq<string>)
    requires Segments(vs) == []
    ensures Segments(front + vs + back) == Segments(front + back)
  {
    SegmentsAppend(front + vs, back);
    SegmentsAppendNone(front, vs);
    SegmentsAppend(front, back);
  }

  lemma SegmentsAppendNone(ws: seq<string>, vs: seq<string>)
    requires Segments(vs) == []
    ensures Segments(ws + vs) == Segments(ws)
  {
    SegmentsAppend(ws, vs);
  }

  /** An empty piece between two pipes is dropped. */
  lemma PipeDropsEmptyPiece(a: string, b: string)
    requires Clean(a) && Clean(b)
    requires !(RegexPrefix <= a + "||" + b)
    ensures StringTokens(a + "||" + b) == [Text(a), Text(b)]
  {
    var s := a + "||" + b;
    SplitAroundEmpty(a, b);
    assert s[0] == a[0];
    NotBlank(s);
    SegmentsAroundEmpty(a, b);
  }

  lemma SplitAroundEmpty(a: string, b: string)
    requires '|' !in a && '|' !in b
    ensures Split(a + "||" + b, '|') == [a, [], b]
  {
    var pieces := [a, [], b];
    assert pieces[1..] == [[], b] && pieces[1..][1..] == [b];
    assert Join([[], b], "|") == [] + "|" + b;
    assert Join(pieces, "|") == a + "|" + ("|" + b);
    assert a + "|" + ("|" + b) == a + "||" + b;
    SplitJoin(pieces, '|');
  }

  lemma SegmentsAroundEmpty(a: string, b: string)
    requires Clean(a) && Clean(b)
    ensures Segments([a, [], b]) == [Text(a), Text(b)]
  {
    TrimUnchanged(a, Whitespace);
    TrimUnchanged(b, Whitespace);
    SegmentsOne(a);
    SegmentsOne([]);
    SegmentsOne(b);
    assert [a, [], b] == [a] + [[]] + [b];
    SegmentsBetween([a], [[]], [b]);
    SegmentsAppend([a], [b]);
  }

  /** `'required||string'` gives two rules. */
  lemma PipeExample()
    ensures StringTokens("required||string") == [Text("required"), Text("string")]
  {
    assert Clean("required") && Clean("string");
    assert "required||string" == "required" + "||" + "string";
    assert "required||string"[2] != RegexPrefix[2];
    PipeDropsEmptyPiece("required", "string");
  }
}
