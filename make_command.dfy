/**
 * The string and decision logic of the `make:ruleset` console command
 * (src/Commands/RulesetMakeCommand.php): turning the ruleset and model
 * arguments into class paths, the ruleset suffix, the `--gen` answer, the
 * `use` block of the stub and the expected intermediate abstract class.
 * Reading options, prompting, discovery and file writing are not modelled;
 * what they would supply is passed in as parameters.
 */
module MakeCommand {
  import opened Strings
  import opened Dedup

  datatype Option<T> = None | Some(value: T)

  // ---------------------------------------------------------------------
  // sanitizeInput

  /** The characters the sanitiser keeps: `[a-zA-Z0-9_/]`. */
  predicate IsPathChar(c: char)
  {
    ('a' <= c <= 'z') || ('A' <= c <= 'Z') || ('0' <= c <= '9') || c == '_' || c == '/'
  }

  /** preg_replace('/[^a-zA-Z0-9_\/]/', '', $s) */
  function KeepPathChars(s: string): string
  {
    if s == [] then [] else (if IsPathChar(s[0]) then [s[0]] else []) + KeepPathChars(s[1..])
  }

  /** Exactly the allowed characters survive. */
  lemma {:induction false} KeepPathCharsSpec(s: string)
    ensures forall c :: c in KeepPathChars(s) <==> c in s && IsPathChar(c)
  {
    if s != [] {
      KeepPathCharsSpec(s[1..]);
      assert forall c :: c in s <==> c == s[0] || c in s[1..];
    }
  }

  /** Filtering works character by character: it distributes over
      concatenation, keeping each allowed character in place and every copy
      of it. */
  lemma {:induction false} KeepPathCharsAppend(a: string, b: string)
    ensures KeepPathChars(a + b) == KeepPathChars(a) + KeepPathChars(b)
  {
    if a == [] {
      assert a + b == b;
    } else {
      assert (a + b)[0] == a[0] && (a + b)[1..] == a[1..] + b;
      KeepPathCharsAppend(a[1..], b);
    }
  }

  /** A string made only of allowed characters is left alone. */
  lemma {:induction false} KeepPathCharsNoop(s: string)
    requires forall i :: 0 <= i < |s| ==> IsPathChar(s[i])
    ensures KeepPathChars(s) == s
  {
    if s != [] {
      assert forall i :: 1 <= i < |s| ==> s[1..][i - 1] == s[i];
      KeepPathCharsNoop(s[1..]);
    }
  }

  /** One character is kept exactly when it is allowed. */
  lemma KeepPathCharsOne(c: char)
    ensures KeepPathChars([c]) == if IsPathChar(c) then [c] else []
  {
    assert [c][1..] == [];
  }

  /** No `/` directly follows another. */
  predicate NoDoubleSlash(s: string)
  {
    |s| < 2 || (!(s[0] == '/' && s[1] == '/') && NoDoubleSlash(s[1..]))
  }

  /** `s` with every `/` removed: what collapsing runs of `/` must keep. */
  function WithoutSlashes(s: string): string
  {
    if s == [] then []
    else (if s[0] == '/' then [] else [s[0]]) + WithoutSlashes(s[1..])
  }

  /** preg_replace('#/+#', '/', $s): every run of `/` becomes one `/`. */
  function CollapseSlashes(s: string): string
  {
    if |s| < 2 then s
    else if s[0] == '/' && s[1] == '/' then CollapseSlashes(s[1..])
    else [s[0]] + CollapseSlashes(s[1..])
  }

  /** The collapsed string has no doubled `/`, holds the same characters,
      differs from `s` only in slashes and starts like `s`. */
  lemma {:induction false} CollapseSlashesSpec(s: string)
    ensures var r := CollapseSlashes(s);
      && NoDoubleSlash(r)
      && (forall c :: c in r <==> c in s)
      && WithoutSlashes(r) == WithoutSlashes(s)
      && (r != [] ==> s != [] && r[0] == s[0])
  {
    if |s| >= 2 {
      var rest := CollapseSlashes(s[1..]);
      CollapseSlashesSpec(s[1..]);
      assert forall c :: c in s <==> c == s[0] || c in s[1..];
      if !(s[0] == '/' && s[1] == '/') {
        var r := [s[0]] + rest;
        assert r[1..] == rest;
      }
    }
  }

  /** Collapsing works left to right: a character appended to the input is
      appended to the output, except a `/` right after a `/`, so every run
      of `/` leaves exactly one `/`. */
  lemma {:induction false} CollapseSlashesSnoc(s: string, c: char)
    ensures CollapseSlashes(s + [c])
         == CollapseSlashes(s) + (if c == '/' && s != [] && s[|s| - 1] == '/' then [] else [c])
  {
    if |s| == 1 {
      assert s + [c] == [s[0], c];
      assert [s[0], c][1..] == [c];
    } else if |s| >= 2 {
      assert (s + [c])[0] == s[0] && (s + [c])[1] == s[1];
      assert (s + [c])[1..] == s[1..] + [c];
      assert s[1..][|s[1..]| - 1] == s[|s| - 1];
      CollapseSlashesSnoc(s[1..], c);
    }
  }

  /** With nothing to collapse, collapsing changes nothing. */
  lemma {:induction false} CollapseSlashesNoop(s: string)
    requires NoDoubleSlash(s)
    ensures CollapseSlashes(s) == s
  {
    if |s| >= 2 {
      CollapseSlashesNoop(s[1..]);
      assert [s[0]] + s[1..] == s;
    }
  }

  /** sanitizeInput($input): trim, turn `\` into `/`, drop every character
      outside `[a-zA-Z0-9_/]`, collapse runs of `/`. */
  function Sanitize(input: string): string
  {
    CollapseSlashes(KeepPathChars(ReplaceChar(Trim(input, Whitespace), '\\', '/')))
  }

  /** A sanitised name holds only allowed characters and no doubled `/`. */
  lemma SanitizeSpec(input: string)
    ensures forall c :: c in Sanitize(input) ==> IsPathChar(c)
    ensures NoDoubleSlash(Sanitize(input))
  {
    var kept := KeepPathChars(ReplaceChar(Trim(input, Whitespace), '\\', '/'));
    KeepPathCharsSpec(ReplaceChar(Trim(input, Whitespace), '\\', '/'));
    CollapseSlashesSpec(kept);
  }

  /** A path made of allowed characters and backslashes, without doubled
      separators, sanitises to itself with every `\` turned into `/`: the
      namespace separators survive as path separators. */
  lemma SanitizeCleanPath(s: string)
    requires forall i :: 0 <= i < |s| ==> IsPathChar(s[i]) || s[i] == '\\'
    requires NoDoubleSlash(ReplaceChar(s, '\\', '/'))
    ensures Sanitize(s) == ReplaceChar(s, '\\', '/')
  {
    var p := ReplaceChar(s, '\\', '/');
    NoWhitespace(s);
    KeepReplaced(s);
    CollapseSlashesNoop(p);
    SanitizeUntrimmed(s, p);
  }

  lemma SanitizeUntrimmed(s: string, p: string)
    requires Trim(s, Whitespace) == s
    requires KeepPathChars(ReplaceChar(s, '\\', '/')) == p && CollapseSlashes(p) == p
    ensures Sanitize(s) == p
  {
  }

  lemma KeepReplaced(s: string)
    requires forall i :: 0 <= i < |s| ==> IsPathChar(s[i]) || s[i] == '\\'
    ensures KeepPathChars(ReplaceChar(s, '\\', '/')) == ReplaceChar(s, '\\', '/')
  {
    PathCharsKept(s);
    KeepPathCharsNoop(ReplaceChar(s, '\\', '/'));
  }

  lemma NoWhitespace(s: string)
    requires forall i :: 0 <= i < |s| ==> IsPathChar(s[i]) || s[i] == '\\'
    ensures Trim(s, Whitespace) == s
  {
    forall i | 0 <= i < |s|
      ensures s[i] !in Whitespace
    {
      PathCharNotWhitespace(s[i]);
    }
    TrimNothing(s, Whitespace);
  }

  lemma PathCharNotWhitespace(c: char)
    requires IsPathChar(c) || c == '\\'
    ensures c !in Whitespace
  {
  }

  lemma PathCharsKept(s: string)
    requires forall i :: 0 <= i < |s| ==> IsPathChar(s[i]) || s[i] == '\\'
    ensures forall i :: 0 <= i < |s| ==> IsPathChar(ReplaceChar(s, '\\', '/')[i])
  {
  }

  /** Sanitising twice is sanitising once. */
  lemma SanitizeIdempotent(input: string)
    ensures Sanitize(Sanitize(input)) == Sanitize(input)
  {
    var s := Sanitize(input);
    SanitizeSpec(input);
    forall i | 0 <= i < |s|
      ensures IsPathChar(s[i]) && s[i] != '\\'
    {
      assert s[i] in s;
    }
    ReplaceAbsent(s, '\\', '/');
    SanitizeCleanPath(s);
  }

  // ---------------------------------------------------------------------
  // qualifyInput and normalizeClassName

  const Separators: set<char> := {'\\', '/'}

  /** qualifyInput($input): strip leading and trailing `\` and `/`, then
      turn the remaining `/` into `\`. */
  function QualifyInput(input: string): (r: string)
    ensures '/' !in r
    ensures r != [] ==> r[0] != '\\' && r[|r| - 1] != '\\'
  {
    ReplaceChar(Trim(input, Separators), '/', '\\')
  }

  /** On input without backslashes, turning the `\` back into `/` gives the
      trimmed input: qualifying loses nothing but the outer separators. */
  lemma QualifyInputInverse(input: string)
    requires '\\' !in input
    ensures ReplaceChar(QualifyInput(input), '\\', '/') == Trim(input, Separators)
  {
    var t := Trim(input, Separators);
    assert '\\' !in t;
    assert forall i :: 0 <= i < |t| ==> t[i] != '\\';
  }

  /** The example of the source's doc comment. */
  lemma QualifyInputExample()
    ensures QualifyInput("/path/to/Model/") == "path\\to\\Model"
  {
    TrimExample();
    ReplaceExample();
  }

  lemma TrimExample()
    ensures Trim("/path/to/Model/", Separators) == "path/to/Model"
  {
    var t := "path/to/Model";
    assert "/path/to/Model/" == "/" + t + "/";
    TrimUnchanged(t, Separators);
    TrimOuter(t, Separators, '/');
  }

  lemma ReplaceExample()
    ensures ReplaceChar("path/to/Model", '/', '\\') == "path\\to\\Model"
  {
    var words := ["path", "to", "Model"];
    assert Join(words, "/") == "path/to/Model";
    assert Join(words, "\\") == "path\\to\\Model";
    assert forall i :: 0 <= i < |words| ==> '/' !in words[i];
    ReplaceJoin(words, '/', '\\');
  }

  /** Trimming `[c] + t + [c]` with `c` to be cut and `t` already trimmed. */
  lemma TrimOuter(t: string, cut: set<char>, c: char)
    requires c in cut && Trim(t, cut) == t && t != []
    ensures Trim([c] + t + [c], cut) == t
  {
    var s := [c] + t + [c];
    assert s[0] == c && s[1..] == t + [c];
    assert TrimStart(s, cut) == TrimStart(t + [c], cut);
    assert TrimStart(t + [c], cut) == t + [c];
    assert (t + [c])[..|t|] == t;
  }

  /** Str::studly applied to every segment. */
  function MapSegments(segments: seq<string>, studly: string -> string): (r: seq<string>)
    ensures |r| == |segments| && forall i :: 0 <= i < |segments| ==> r[i] == studly(segments[i])
  {
    seq(|segments|, i requires 0 <= i < |segments| => studly(segments[i]))
  }

  /** The `/`-separated segments of a class path, outer slashes stripped. */
  function Segments(className: string): (r: seq<string>)
    ensures |r| >= 1 && forall i :: 0 <= i < |r| ==> '/' !in r[i]
  {
    Split(Trim(className, {'/'}), '/')
  }

  /** normalizeClassName($className): studly-case every segment. Str::studly
      is a library function and is a parameter here. */
  function NormalizeClassName(className: string, studly: string -> string): string
  {
    Join(MapSegments(Segments(className), studly), "/")
  }

  /** As long as studly-casing puts no `/` into a segment, the normalised
      name has as many segments as the input, in the same order, each the
      studly form of the input's segment. */
  lemma NormalizeClassNameSegments(className: string, studly: string -> string)
    requires forall w :: '/' !in w ==> '/' !in studly(w)
    ensures var out := Split(NormalizeClassName(className, studly), '/');
      && |out| == |Segments(className)|
      && forall i :: 0 <= i < |out| ==> out[i] == studly(Segments(className)[i])
  {
    var mapped := MapSegments(Segments(className), studly);
    assert forall i :: 0 <= i < |mapped| ==> '/' !in mapped[i];
    SplitJoin(mapped, '/');
  }

  /** With studly the identity, normalising only strips the outer slashes. */
  lemma NormalizeClassNameIdentity(className: string, studly: string -> string)
    requires forall w :: studly(w) == w
    ensures NormalizeClassName(className, studly) == Trim(className, {'/'})
  {
    assert MapSegments(Segments(className), studly) == Segments(className);
    JoinSplit(Trim(className, {'/'}), '/');
  }

  // ---------------------------------------------------------------------
  // getNameInput: the ruleset suffix

  /** Default of the `ruleset_suffix` convention. */
  const DefaultSuffix: string := "Ruleset"

  /** The suffix is appended when suffixing is on and the sanitised name
      does not contain it anywhere (an empty suffix is never contained). */
  function WithSuffix(sanitized: string, usesSuffix: bool, suffix: string): (r: string)
    ensures usesSuffix && suffix != [] ==> Contains(r, suffix)
    ensures !usesSuffix || Contains(sanitized, suffix) ==> r == sanitized
    ensures sanitized <= r
    ensures usesSuffix && !Contains(sanitized, suffix) ==> r[|sanitized|..] == suffix
  {
    if usesSuffix && !Contains(sanitized, suffix) then
      OccursAtEnd(sanitized, suffix);
      sanitized + suffix
    else sanitized
  }

  /** Applying the suffix rule twice appends at most once. */
  lemma WithSuffixIdempotent(sanitized: string, usesSuffix: bool, suffix: string)
    ensures WithSuffix(WithSuffix(sanitized, usesSuffix, suffix), usesSuffix, suffix)
         == WithSuffix(sanitized, usesSuffix, suffix)
  {
    if usesSuffix && suffix == [] {
      assert sanitized + suffix == sanitized;
    }
  }

  /** "User" gains the suffix; a name that already has it anywhere, even in
      the middle, does not. */
  lemma WithSuffixExamples()
    ensures WithSuffix("User", true, DefaultSuffix) == "UserRuleset"
    ensures WithSuffix("UserRulesetItem", true, DefaultSuffix) == "UserRulesetItem"
  {
    assert !Contains("User", DefaultSuffix);
    assert OccursAtIndex("UserRulesetItem", DefaultSuffix, 4);
    OccursAt("UserRulesetItem", DefaultSuffix);
  }

  // ---------------------------------------------------------------------
  // getNameInput / getModelInput: cached inputs

  /** Model::class, used when `-m` is given without a value. */
  const EloquentModel: string := "Illuminate\\Database\\Eloquent\\Model"

  /** The command's input caches: `$inputArgName` and `$inputOptModel`. */
  class MakeInputs {
    var inputArgName: string
    var inputOptModel: Option<string>

    constructor ()
      ensures inputArgName == [] && inputOptModel == None
    {
      inputArgName := [];
      inputOptModel := None;
    }

    /** getNameInput(): the cached name if it is not blank; otherwise the
        name built from the argument, which is cached. */
    method NameInput(argument: string, usesSuffix: bool, suffix: string, studly: string -> string)
      returns (name: string)
      modifies this
      ensures !Blank(old(inputArgName)) ==> name == old(inputArgName)
      ensures Blank(old(inputArgName)) ==> name == RulesetName(argument, usesSuffix, suffix, studly)
      ensures inputArgName == name
      ensures inputOptModel == old(inputOptModel)
    {
      if !Blank(inputArgName) {
        return inputArgName;
      }
      inputArgName := RulesetName(argument, usesSuffix, suffix, studly);
      name := inputArgName;
    }

    /** getModelInput(): the cached model if there is one; nothing when `-m`
        was not given; otherwise the resolved value, cached when there is
        one. */
    method ModelInput(flagProvided: bool, raw: Option<string>, studly: string -> string)
      returns (model: Option<string>)
      modifies this
      ensures old(inputOptModel).Some? ==> model == old(inputOptModel) && inputOptModel == old(inputOptModel)
      ensures old(inputOptModel).None? && !flagProvided ==> model == None && inputOptModel == None
      ensures old(inputOptModel).None? && flagProvided ==>
        model == ResolveModel(raw, studly) && inputOptModel == model
      ensures inputArgName == old(inputArgName)
    {
      if inputOptModel.Some? {
        return inputOptModel;
      }
      if !flagProvided {
        return None;
      }
      var candidate := ModelCandidate(raw);
      var sanitized := Sanitize(candidate);
      if Blank(sanitized) {
        return None;
      }
      inputOptModel := Some(NormalizeClassName(sanitized, studly));
      model := inputOptModel;
    }
  }

  /** The ruleset name built from the `name` argument: sanitised, given
      the suffix, normalised. */
  function RulesetName(argument: string, usesSuffix: bool, suffix: string, studly: string -> string): string
  {
    NormalizeClassName(WithSuffix(Sanitize(argument), usesSuffix, suffix), studly)
  }

  /** The value of `-m`: Model::class for a bare or blank flag. */
  function ModelCandidate(raw: Option<string>): (r: string)
    ensures raw.Some? && !Blank(raw.value) ==> r == raw.value
    ensures raw.None? || Blank(raw.value) ==> r == EloquentModel
  {
    if raw.None? || Blank(raw.value) then EloquentModel else raw.value
  }

  /** The model a given `-m` flag resolves to: the sanitised candidate,
      normalised, or nothing when it sanitises to blank. */
  function ResolveModel(raw: Option<string>, studly: string -> string): Option<string>
  {
    var sanitized := Sanitize(ModelCandidate(raw));
    if Blank(sanitized) then None else Some(NormalizeClassName(sanitized, studly))
  }

  /** PHP's `(bool)` on the model input: null, "" and "0" are false. */
  predicate HasModelInput(model: Option<string>)
  {
    model.Some? && model.value != "" && model.value != "0"
  }

  /** A namespace or class segment: non-empty, only `[a-zA-Z0-9_]`. */
  predicate PlainSegment(w: string)
  {
    w != [] && forall i :: 0 <= i < |w| ==> IsPathChar(w[i]) && w[i] != '/'
  }

  /** Gluing two strings that have no doubled `/` keeps that, unless the
      first ends and the second starts with `/`. */
  lemma {:induction false} NoDoubleSlashAppend(a: string, b: string)
    requires NoDoubleSlash(a) && NoDoubleSlash(b)
    requires a != [] && b != [] ==> !(a[|a| - 1] == '/' && b[0] == '/')
    ensures NoDoubleSlash(a + b)
  {
    if a != [] {
      assert (a + b)[1..] == a[1..] + b;
      assert |a| >= 2 ==> a[1..][|a| - 2] == a[|a| - 1];
      NoDoubleSlashAppend(a[1..], b);
    } else {
      assert a + b == b;
    }
  }

  lemma {:induction false} NoSlashNoDoubleSlash(w: string)
    requires '/' !in w
    ensures NoDoubleSlash(w)
  {
    if |w| >= 2 {
      assert '/' !in w[1..];
      NoSlashNoDoubleSlash(w[1..]);
    }
  }

  /** Plain segments glued with `/` have no doubled `/`. */
  lemma {:induction false} JoinedSegmentsNoDoubleSlash(words: seq<string>)
    requires |words| >= 1 && forall i :: 0 <= i < |words| ==> PlainSegment(words[i])
    ensures NoDoubleSlash(Join(words, "/"))
  {
    assert PlainSegment(words[0]);
    NoSlashNoDoubleSlash(words[0]);
    if |words| > 1 {
      var tail := Join(words[1..], "/");
      assert PlainSegment(words[1]);
      JoinedSegmentsNoDoubleSlash(words[1..]);
      JoinStartsWith(words[1..], "/");
      assert tail[0] == words[1][0];
      NoDoubleSlashAppend("/", tail);
      NoDoubleSlashAppend(words[0], "/" + tail);
      assert Join(words, "/") == words[0] + ("/" + tail);
    }
  }

  /** The characters of plain segments glued with `\` are all kept by the
      sanitiser or turned into `/`. */
  lemma JoinedSegmentsChars(words: seq<string>)
    requires forall i :: 0 <= i < |words| ==> PlainSegment(words[i])
    ensures var s := Join(words, "\\");
      forall i :: 0 <= i < |s| ==> IsPathChar(s[i]) || s[i] == '\\'
  {
    var s := Join(words, "\\");
    forall i | 0 <= i < |s|
      ensures IsPathChar(s[i]) || s[i] == '\\'
    {
      JoinMembers(words, "\\", s[i]);
      if s[i] != '\\' {
        var j :| 0 <= j < |words| && s[i] in words[j];
        assert PlainSegment(words[j]);
      }
    }
  }

  /** Plain segments glued with `/` neither start nor end with a separator. */
  lemma JoinedSegmentsEnds(words: seq<string>)
    requires |words| >= 1 && forall i :: 0 <= i < |words| ==> PlainSegment(words[i])
    ensures var s := Join(words, "/");
      s != [] && s[0] !in Separators && s[|s| - 1] !in Separators
  {
    var s := Join(words, "/");
    var first, last := words[0], words[|words| - 1];
    assert PlainSegment(first) && PlainSegment(last);
    JoinStartsWith(words, "/");
    JoinEndsWith(words, "/");
    assert s[0] == first[0];
    assert s[|s| - 1] == s[|s| - |last|..][|last| - 1] == last[|last| - 1];
  }

  /** A fully qualified class name made of plain segments comes out of
      sanitising, normalising and qualifying as it went in, as long as
      studly-casing leaves its segments alone. */
  lemma ClassNameRoundTrip(words: seq<string>, studly: string -> string)
    requires |words| >= 1
    requires forall i :: 0 <= i < |words| ==> PlainSegment(words[i]) && studly(words[i]) == words[i]
    ensures Sanitize(Join(words, "\\")) == Join(words, "/")
    ensures NormalizeClassName(Join(words, "/"), studly) == Join(words, "/")
    ensures QualifyInput(Join(words, "/")) == Join(words, "\\")
  {
    SanitizeJoinedSegments(words);
    NormalizeJoinedSegments(words, studly);
    QualifyJoinedSegments(words);
  }

  lemma SegmentsFree(words: seq<string>)
    requires forall i :: 0 <= i < |words| ==> PlainSegment(words[i])
    ensures forall i :: 0 <= i < |words| ==> '\\' !in words[i] && '/' !in words[i]
  {
    forall i | 0 <= i < |words|
      ensures '\\' !in words[i] && '/' !in words[i]
    {
      assert PlainSegment(words[i]);
    }
  }

  lemma SanitizeJoinedSegments(words: seq<string>)
    requires |words| >= 1 && forall i :: 0 <= i < |words| ==> PlainSegment(words[i])
    ensures Sanitize(Join(words, "\\")) == Join(words, "/")
  {
    SegmentsFree(words);
    ReplaceJoin(words, '\\', '/');
    JoinedSegmentsChars(words);
    JoinedSegmentsNoDoubleSlash(words);
    SanitizeCleanPath(Join(words, "\\"));
  }

  lemma QualifyJoinedSegments(words: seq<string>)
    requires |words| >= 1 && forall i :: 0 <= i < |words| ==> PlainSegment(words[i])
    ensures QualifyInput(Join(words, "/")) == Join(words, "\\")
  {
    SegmentsFree(words);
    JoinedSegmentsEnds(words);
    TrimUnchanged(Join(words, "/"), Separators);
    ReplaceJoin(words, '/', '\\');
  }

  /** Normalising plain segments that studly-casing leaves alone changes
      nothing. */
  lemma NormalizeJoinedSegments(words: seq<string>, studly: string -> string)
    requires |words| >= 1
    requires forall i :: 0 <= i < |words| ==> PlainSegment(words[i]) && studly(words[i]) == words[i]
    ensures NormalizeClassName(Join(words, "/"), studly) == Join(words, "/")
  {
    var path := Join(words, "/");
    JoinedSegmentsEnds(words);
    TrimUnchanged(path, {'/'});
    SegmentsFree(words);
    SplitJoin(words, '/');
    MapSegmentsFixed(words, studly);
  }

  lemma MapSegmentsFixed(words: seq<string>, studly: string -> string)
    requires forall i :: 0 <= i < |words| ==> studly(words[i]) == words[i]
    ensures MapSegments(words, studly) == words
  {
  }

  /** Model::class in the path form the command works with. */
  const EloquentModelPath: string := "Illuminate/Database/Eloquent/Model"

  /** A bare `-m` flag names Model::class, which resolves to its path form,
      provided studly-casing keeps the four segments of that class name as
      they are. */
  lemma BareModelFlagResolves(studly: string -> string)
    requires studly("Illuminate") == "Illuminate" && studly("Database") == "Database"
    requires studly("Eloquent") == "Eloquent" && studly("Model") == "Model"
    ensures ResolveModel(None, studly) == Some(EloquentModelPath)
  {
    EloquentSanitized();
    EloquentNormalized(studly);
    ResolveBare(EloquentModelPath, studly);
  }

  lemma EloquentSanitized()
    ensures Sanitize(EloquentModel) == EloquentModelPath && !Blank(EloquentModelPath)
  {
    var words := ["Illuminate", "Database", "Eloquent", "Model"];
    EloquentModelWords();
    SanitizeJoinedSegments(words);
    JoinedSegmentsVisible(words);
  }

  lemma EloquentNormalized(studly: string -> string)
    requires studly("Illuminate") == "Illuminate" && studly("Database") == "Database"
    requires studly("Eloquent") == "Eloquent" && studly("Model") == "Model"
    ensures NormalizeClassName(EloquentModelPath, studly) == EloquentModelPath
  {
    var words := ["Illuminate", "Database", "Eloquent", "Model"];
    EloquentModelWords();
    NormalizeJoinedSegments(words, studly);
  }

  /** Qualified again, the model of a bare `-m` flag is Model::class, the
      class the intermediate-abstract logic tests for. */
  lemma EloquentPathQualifies()
    ensures QualifyInput(EloquentModelPath) == EloquentModel
  {
    var words := ["Illuminate", "Database", "Eloquent", "Model"];
    EloquentModelWords();
    QualifyJoinedSegments(words);
  }

  lemma ResolveBare(path: string, studly: string -> string)
    requires Sanitize(EloquentModel) == path
    requires !Blank(path) && NormalizeClassName(path, studly) == path
    ensures ResolveModel(None, studly) == Some(path)
  {
  }

  /** Model::class is its four plain segments glued with `\\`. */
  lemma EloquentModelWords()
    ensures var words := ["Illuminate", "Database", "Eloquent", "Model"];
      && EloquentModel == Join(words, "\\")
      && Join(words, "/") == EloquentModelPath
      && forall i :: 0 <= i < |words| ==> PlainSegment(words[i])
  {
    EloquentPlainWords();
    PlainFour("Illuminate", "Database", "Eloquent", "Model");
    EloquentBackslashes();
    EloquentSlashes();
  }

  lemma EloquentBackslashes()
    ensures EloquentModel == Join(["Illuminate", "Database", "Eloquent", "Model"], "\\")
  {
    EloquentJoined("\\", EloquentModel);
  }

  lemma EloquentSlashes()
    ensures EloquentModelPath == Join(["Illuminate", "Database", "Eloquent", "Model"], "/")
  {
    EloquentJoined("/", EloquentModelPath);
  }

  lemma EloquentJoined(glue: string, name: string)
    requires name == "Illuminate" + glue + "Database" + glue + "Eloquent" + glue + "Model"
    ensures Join(["Illuminate", "Database", "Eloquent", "Model"], glue) == name
  {
    JoinFour("Illuminate", "Database", "Eloquent", "Model", glue);
  }

  lemma EloquentPlainWords()
    ensures PlainSegment("Illuminate") && PlainSegment("Database")
    ensures PlainSegment("Eloquent") && PlainSegment("Model")
  {
    assert PlainSegment("Illuminate");
    assert PlainSegment("Database");
    assert PlainSegment("Eloquent");
  }

  lemma PlainFour(a: string, b: string, c: string, d: string)
    requires PlainSegment(a) && PlainSegment(b) && PlainSegment(c) && PlainSegment(d)
    ensures forall i :: 0 <= i < 4 ==> PlainSegment([a, b, c, d][i])
  {
  }

  lemma JoinFour(a: string, b: string, c: string, d: string, glue: string)
    ensures Join([a, b, c, d], glue) == a + glue + b + glue + c + glue + d
  {
    var words := [a, b, c, d];
    assert words[1..] == [b, c, d] && words[1..][1..] == [c, d] && words[1..][1..][1..] == [d];
    assert Join([c, d], glue) == c + glue + d;
    assert Join([b, c, d], glue) == b + glue + (c + glue + d);
  }


  /** A model named by a plain fully qualified class name resolves to its
      path form, and qualifying that gives the name back. */
  lemma ResolvePlainModel(words: seq<string>, studly: string -> string)
    requires |words| >= 1
    requires forall i :: 0 <= i < |words| ==> PlainSegment(words[i]) && studly(words[i]) == words[i]
    ensures ResolveModel(Some(Join(words, "\\")), studly) == Some(Join(words, "/"))
    ensures QualifyInput(ResolveModel(Some(Join(words, "\\")), studly).value) == Join(words, "\\")
  {
    ClassNameRoundTrip(words, studly);
    JoinedSegmentsVisible(words);
    ResolveTo(Join(words, "\\"), Join(words, "/"), studly);
  }

  /** `-m 0` resolves to the model "0", which PHP's `(bool)` reads as no
      model: the command then goes on as for a plain ruleset. */
  lemma ModelZeroIsNoModel(studly: string -> string)
    requires studly("0") == "0"
    ensures ResolveModel(Some("0"), studly) == Some("0")
    ensures !HasModelInput(ResolveModel(Some("0"), studly))
  {
    assert PlainSegment("0");
    assert Join(["0"], "\\") == "0" && Join(["0"], "/") == "0";
    ResolvePlainModel(["0"], studly);
  }

  lemma JoinedSegmentsVisible(words: seq<string>)
    requires |words| >= 1 && forall i :: 0 <= i < |words| ==> PlainSegment(words[i])
    ensures !Blank(Join(words, "/")) && !Blank(Join(words, "\\"))
  {
    JoinedVisible(words, "/");
    JoinedVisible(words, "\\");
  }

  lemma JoinedVisible(words: seq<string>, glue: string)
    requires |words| >= 1 && PlainSegment(words[0])
    ensures !Blank(Join(words, glue))
  {
    var s := Join(words, glue);
    JoinStartsWith(words, glue);
    assert s[0] == words[0][0];
    PathCharNotWhitespace(s[0]);
    NotBlank(s);
  }

  lemma ResolveTo(value: string, path: string, studly: string -> string)
    requires !Blank(value) && Sanitize(value) == path
    requires !Blank(path) && NormalizeClassName(path, studly) == path
    ensures ResolveModel(Some(value), studly) == Some(path)
  {
  }

  /** A model value with nothing a class name may contain resolves to no
      model at all, even though the flag was given. */
  lemma ResolveNothingLeft(value: string, studly: string -> string)
    requires !Blank(value)
    requires forall i :: 0 <= i < |value| ==> !IsPathChar(value[i]) && value[i] != '\\'
    ensures ResolveModel(Some(value), studly) == None
  {
    var replaced := ReplaceChar(Trim(value, Whitespace), '\\', '/');
    TrimSpec(value, Whitespace);
    forall i | 0 <= i < |replaced|
      ensures !IsPathChar(replaced[i])
    {
      var t := Trim(value, Whitespace);
      assert t[i] in t;
    }
    KeepNone(replaced);
  }

  lemma {:induction false} KeepNone(s: string)
    requires forall i :: 0 <= i < |s| ==> !IsPathChar(s[i])
    ensures KeepPathChars(s) == []
  {
    if s != [] {
      KeepNone(s[1..]);
    }
  }

  // ---------------------------------------------------------------------
  // shouldGenerateIntermediateAbstract: the --gen option

  /** What the `--gen` option decides: generate, do not, or ask. */
  datatype GenAnswer = Generate | Skip | Ask

  const YesWords: seq<string> := ["yes", "y", "true", "1"]
  const NoWords: seq<string> := ["no", "n", "false", "0"]

  /** The value parsing of shouldGenerateIntermediateAbstract(): an absent
      flag asks, a bare or blank value generates, a yes or no word in any
      letter case decides, and anything else asks. */
  function ParseGen(flagProvided: bool, raw: Option<string>): (r: GenAnswer)
    ensures r == Generate <==>
      flagProvided && (raw.None? || Blank(raw.value) || Lower(raw.value) in YesWords)
    ensures r == Skip <==>
      flagProvided && raw.Some? && !Blank(raw.value) && Lower(raw.value) in NoWords
  {
    if !flagProvided then Ask
    else if raw.None? || Blank(raw.value) then Generate
    else
      var value := Lower(raw.value);
      WordLists(value);
      if value in YesWords then Generate
      else if value in NoWords then Skip
      else Ask
  }

  /** No word is both a yes and a no word, and none is blank. */
  lemma WordLists(w: string)
    ensures !(w in YesWords && w in NoWords)
    ensures w in YesWords || w in NoWords ==> !Blank(w)
  {
    YesInitials(w);
    NoInitials(w);
    if w in YesWords || w in NoWords {
      NotBlank(w);
    }
  }

  lemma YesInitials(w: string)
    ensures w in YesWords ==> w != [] && (w[0] == 'y' || w[0] == 't' || w[0] == '1')
  {
    if w in YesWords {
      assert w == "yes" || w == "y" || w == "true" || w == "1";
    }
  }

  lemma NoInitials(w: string)
    ensures w in NoWords ==> w != [] && (w[0] == 'n' || w[0] == 'f' || w[0] == '0')
  {
    if w in NoWords {
      assert w == "no" || w == "n" || w == "false" || w == "0";
    }
  }

  /** Lower-casing never turns whitespace into something else or back. */
  lemma BlankLower(s: string)
    ensures Blank(Lower(s)) == Blank(s)
  {
    var l := Lower(s);
    assert forall i :: 0 <= i < |s| ==> (l[i] in Whitespace <==> s[i] in Whitespace);
  }

  /** The answer does not depend on letter case. */
  lemma ParseGenCaseInsensitive(flagProvided: bool, s: string)
    ensures ParseGen(flagProvided, Some(s)) == ParseGen(flagProvided, Some(Lower(s)))
  {
    BlankLower(s);
    LowerIdempotent(s);
  }

  /** Every yes word, in any letter case, generates; every no word skips. */
  lemma ParseGenWords(s: string)
    ensures Lower(s) in YesWords ==> ParseGen(true, Some(s)) == Generate
    ensures Lower(s) in NoWords ==> ParseGen(true, Some(s)) == Skip
  {
    BlankLower(s);
    WordLists(Lower(s));
  }

  // ---------------------------------------------------------------------
  // getUseStatements

  /** buildUseStatement($statement) */
  function UseStatement(statement: string): string
  {
    "use " + Trim(statement, Whitespace) + ";"
  }

  /** PHP_EOL, taken to be a line feed. */
  const Eol: string := "\n"

  /** getUseStatements($useModel, $useAbstract): the `use` lines for the
      base abstract and then the model, each repeated line once, wrapped in
      line breaks; nothing when neither is wanted. */
  function UseStatements(useModel: bool, useAbstract: bool, abstractClass: string, modelFqcn: string): string
  {
    UseBlock(UseLines(useModel, useAbstract, UseStatement(abstractClass), UseStatement(modelFqcn)))
  }

  /** The `$statements` array: the abstract's line, then the model's. */
  function UseLines(useModel: bool, useAbstract: bool, abstractLine: string, modelLine: string): seq<string>
  {
    (if useAbstract then [abstractLine] else []) + (if useModel then [modelLine] else [])
  }

  /** The returned block: the distinct lines between line breaks. */
  function UseBlock(statements: seq<string>): string
  {
    if |statements| > 0 then Eol + Join(Unique(Identical, statements), Eol) + Eol else []
  }

  /** The block for every combination of the two flags: abstract first, and
      a model line that repeats the abstract line is dropped. */
  lemma UseStatementsCases(useModel: bool, useAbstract: bool, abstractClass: string, modelFqcn: string)
    ensures var block := UseStatements(useModel, useAbstract, abstractClass, modelFqcn);
      var a, m := UseStatement(abstractClass), UseStatement(modelFqcn);
      && (!useModel && !useAbstract ==> block == [])
      && (useAbstract && !useModel ==> block == Eol + a + Eol)
      && (useModel && !useAbstract ==> block == Eol + m + Eol)
      && (useModel && useAbstract && a == m ==> block == Eol + a + Eol)
      && (useModel && useAbstract && a != m ==> block == Eol + a + Eol + m + Eol)
  {
    UseBlockCases(useModel, useAbstract, UseStatement(abstractClass), UseStatement(modelFqcn));
  }

  lemma UseBlockCases(useModel: bool, useAbstract: bool, a: string, m: string)
    ensures var block := UseBlock(UseLines(useModel, useAbstract, a, m));
      && (!useModel && !useAbstract ==> block == [])
      && (useAbstract && !useModel ==> block == Eol + a + Eol)
      && (useModel && !useAbstract ==> block == Eol + m + Eol)
      && (useModel && useAbstract && a == m ==> block == Eol + a + Eol)
      && (useModel && useAbstract && a != m ==> block == Eol + a + Eol + m + Eol)
  {
    if useModel && useAbstract {
      assert UseLines(useModel, useAbstract, a, m) == [a, m];
      UseStatementsBoth(a, m);
    } else if useAbstract {
      assert UseLines(useModel, useAbstract, a, m) == [a];
      UseStatementsOne(a);
    } else if useModel {
      assert UseLines(useModel, useAbstract, a, m) == [m];
      UseStatementsOne(m);
    }
  }

  lemma UseStatementsOne(line: string)
    ensures Eol + Join(Unique(Identical, [line]), Eol) + Eol == Eol + line + Eol
  {
    UniqueOne(line);
  }

  lemma UseStatementsBoth(a: string, m: string)
    ensures Eol + Join(Unique(Identical, [a, m]), Eol) + Eol
         == if a == m then Eol + a + Eol else Eol + a + Eol + m + Eol
  {
    UniquePair(a, m);
    if a != m {
      assert [a, m][1..] == [m];
      assert Join([a, m], Eol) == a + Eol + m;
    }
  }

  /** array_unique on one line. */
  lemma UniqueOne(a: string)
    ensures Unique(Identical, [a]) == [a]
  {
    UniqueOfUnique(Identical, [a]);
  }

  /** array_unique on two lines drops the second when it repeats the first. */
  lemma UniquePair(a: string, b: string)
    ensures Unique(Identical, [a, b]) == if a == b then [a] else [a, b]
  {
    if a == b {
      assert Identical(b, [a][0]);
      assert [a, b][1..] == [b] && [b][1..] == [];
      assert UniqueAfter(Identical, [a], [b]) == [];
      assert !Related(Identical, a, []);
      assert UniqueAfter(Identical, [], [a, b]) == [a] + UniqueAfter(Identical, [] + [a], [b]);
      assert [] + [a] == [a];
    } else {
      UniqueOfUnique(Identical, [a, b]);
    }
  }

  // ---------------------------------------------------------------------
  // The expected intermediate abstract class

  const RulesetAbstract: string := "RulesetAbstract"
  const ModelRulesetAbstract: string := "ModelRulesetAbstract"

  /** The intermediate abstract's class name for a model or a plain ruleset. */
  function IntermediateName(hasModelInput: bool): string
  {
    if hasModelInput then ModelRulesetAbstract else RulesetAbstract
  }

  /** Str::beforeLast($s, $c) for one character: everything before the last
      `c`, or all of `s` when `c` does not occur. */
  function BeforeLast(s: string, c: char): (r: string)
    ensures c in s ==> |r| < |s| && s[|r|] == c && r == s[..|r|] && c !in s[|r| + 1..]
    ensures c !in s ==> r == s
  {
    if c !in s then s
    else if s[|s| - 1] == c then s[..|s| - 1]
    else
      var p := s[..|s| - 1];
      assert c in p by {
        var i :| 0 <= i < |s| && s[i] == c;
        assert p[i] == c;
      }
      var r := BeforeLast(p, c);
      assert s[|r| + 1..] == p[|r| + 1..] + [s[|s| - 1]];
      r
  }

  /** Cutting at the last `c` of `p + [c] + t` where `t` has none gives `p`. */
  lemma BeforeLastAppend(p: string, c: char, t: string)
    requires c !in t
    ensures BeforeLast(p + [c] + t, c) == p
  {
    var s := p + [c] + t;
    assert s[|p|] == c;
    var r := BeforeLast(s, c);
    assert r == s[..|p|] == p;
  }

  /** `$expectedAbstractIntermediateFqcn`: the ruleset FQCN up to its last
      `\`, then `\` and the intermediate class name. */
  function ExpectedIntermediateFqcn(rulesetFqcn: string, hasModelInput: bool): string
  {
    BeforeLast(rulesetFqcn, '\\') + "\\" + IntermediateName(hasModelInput)
  }

  /** The expected intermediate lives in the ruleset's own namespace and is
      named after the kind of ruleset. */
  lemma ExpectedIntermediateSameNamespace(rulesetFqcn: string, hasModelInput: bool)
    ensures var r := ExpectedIntermediateFqcn(rulesetFqcn, hasModelInput);
      && BeforeLast(r, '\\') == BeforeLast(rulesetFqcn, '\\')
      && r == BeforeLast(r, '\\') + "\\" + IntermediateName(hasModelInput)
  {
    var name := IntermediateName(hasModelInput);
    assert '\\' !in name;
    BeforeLastAppend(BeforeLast(rulesetFqcn, '\\'), '\\', name);
  }
}
