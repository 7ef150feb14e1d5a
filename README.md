# laravel-ruleset-validation: the rule builder and the command logic, in Dafny

This project models the fluent rule builder of the Laravel package
`sjshovan/laravel-ruleset-validation` and the decision and string logic of
its two console commands, and proves properties of the model.

- **The rule builder** (`RuleBuilder`, src/RuleBuilder.php) keeps an ordered
  map from field name to an ordered list of rule tokens.
  - `normalizeRules` flattens raw specifications into tokens. A
    specification is a pipe string, a nested array, an integer or a rule
    object or closure. The tokens are then deduplicated under `===`.
  - `uniqueMerge` concatenates two lists and deduplicates them under loose
    `==`.
  - `clear`, `set`, `add`, `merge`, `remove`, `prepend`, `prependAll` and
    `when` change the map in place, and `get` reads it.
- **`make:ruleset`** (src/Commands/RulesetMakeCommand.php):
  - sanitising, qualifying and normalising class paths;
  - the ruleset suffix;
  - the cached name and model inputs;
  - the `--gen` value;
  - the block of `use` statements;
  - the expected intermediate abstract class.
- **`ruleset:list`** (src/Commands/RulesetListCommand.php):
  - the `only*` filters;
  - the discovery filter;
  - the "Filters:" label;
  - the coloured type labels.

Modules, one per file:

- `Strings` (strings.dfy): the PHP string primitives used: `trim`,
  `explode`, `implode`, `str_contains`, single-character `str_replace` and
  ASCII lower-casing.
- `Dedup` (dedup.dfy): deduplication as a left-to-right reject loop over a
  comparison given as a parameter. This is exactly `uniqueStrict()`; for the
  loose `unique()` of `uniqueMerge` it is a simplification (see "## Left out").
- `Tokens` (tokens.dfy): tokens, raw specifications and `normalizeRules`.
- `Merging` (merging.dfy): `uniqueMerge`, `array_diff`, and the list that
  `prepend` stores.
- `RuleSets` (rule_sets.dfy): the `$rules` map as a value, with every
  builder operation as a function from the old map to the new one.
- `Builder` (builder.dfy): the class `RuleBuilder`. Each of its methods
  updates the `rules` field in place. Each is proved to leave exactly the map
  that the matching `RuleSets` function describes, and to keep the map well
  formed.
- `MakeCommand` (make_command.dfy) and `ListCommand` (list_command.dfy): the
  two commands. Option values, `Str::studly` and reflection answers are
  parameters.

Tokens are `Text(s)`, `Int(n)` or `Opaque(id)`. PHP's `===` on tokens is
Dafny's structural equality, so `Text("0")` and `Int(0)` differ and an
object is equal only to itself. The loose `==` of `Collection::unique()` and
the string-cast comparison of `array_diff()` are two further relations. They
are held by the builder as constants and are not spelled out. The builder
therefore uses two different equalities, just as the code does: `===`
inside one normalisation, and loose `==` when tokens are merged into an
existing field.

## Model

| member | source | states |
|---|---|---|
| Strings.TrimSpec | src/Commands/RulesetMakeCommand.php:304 | trim() leaves one contiguous piece of the input; everything cut off before and after it is in the cut set; the piece starts and ends outside the cut set and is empty exactly when every character is cut |
| Strings.TrimPadded | src/RuleBuilder.php:72 | trimming a string padded on both sides with characters of the cut set gives what trimming the unpadded string gives |
| Strings.SplitJoin | src/RuleBuilder.php:72 | exploding an implosion of separator-free pieces gives the pieces back |
| Strings.JoinSplit | src/Commands/RulesetMakeCommand.php:332-338 | imploding an explosion restores the string |
| Strings.ReplaceJoin | src/Commands/RulesetMakeCommand.php:320-321 | replacing the separator of an implosion is imploding with the new separator |
| Dedup.Unique | src/RuleBuilder.php:95-99 | deduplication keeps a subsequence of its input with no two equal items, and every dropped item equals a kept one |
| Dedup.UniqueStrictIsFirstOccurrences | src/RuleBuilder.php:86-90 | uniqueStrict keeps exactly the first occurrence of each item, in order |
| Dedup.UniqueAfterAppend | src/RuleBuilder.php:95-99 | deduplicating a concatenation is deduplicating the first part and then the second part against what the first part kept |
| Tokens.StringTokens | src/RuleBuilder.php:63-75 | a blank string gives no token; a `regex:` string gives itself whole; any other string gives trimmed, non-empty pieces without a pipe |
| Tokens.Flatten | src/RuleBuilder.php:62-84 | every token produced is a whole `regex:` string or a clean pipe piece |
| Tokens.Normalize | src/RuleBuilder.php:60-91 | the normalised list has no two `===` tokens and holds exactly the tokens of the flattened specifications |
| Tokens.NormalizeKeepsFirstOccurrences | src/RuleBuilder.php:86-90 | the normalised list is the flattened list with every token kept at its first occurrence only |
| Tokens.NormalizeBlank | src/RuleBuilder.php:63-65 | null, blank strings, empty arrays and no argument at all give no tokens |
| Tokens.NormalizeVariadicIsArray | src/RuleBuilder.php:77-90 | passing the specifications one by one or as one array gives the same tokens |
| Tokens.NormalizeNested | src/RuleBuilder.php:77-81 | a nested array flattens in place: depth-first, left to right |
| Tokens.FlattenAllAppend | src/RuleBuilder.php:86-87 | flattening distributes over concatenation of the arguments |
| Tokens.NormalizeIdempotent | src/RuleBuilder.php:60-91 | normalising an already normalised list gives it back unchanged |
| Tokens.FlattenToken | src/RuleBuilder.php:67-83 | a stored token, given back as a specification, yields exactly itself |
| Tokens.PipeRoundTrip | src/RuleBuilder.php:72-74 | a pipe string made of clean rules splits back into exactly those rules |
| Tokens.StringTokensOfPieces | src/RuleBuilder.php:63-75 | a non-`regex:` string imploded from pipe-free pieces gives, in order, the trimmed text of each piece that is not blank |
| Tokens.PipeTrimsPieces | src/RuleBuilder.php:72-74 | padding any piece of a pipe string with whitespace leaves its tokens unchanged |
| Tokens.PipeDropsBlankPiece | src/RuleBuilder.php:72-74 | inserting a blank piece anywhere in a pipe string leaves its tokens unchanged |
| Tokens.PipeDropsEmptyPiece | src/RuleBuilder.php:72-74 | an empty piece between two pipes is dropped |
| Tokens.PipeExample | tests/Feature/RuleBuilderTest.php:218-221 | `'required\|\|string'` gives the two tokens `required` and `string` |
| Tokens.NormalizeDistinctTokens | src/RuleBuilder.php:86-90 | pairwise different stored tokens all survive normalisation, in order |
| Tokens.NormalizeKeepsTextAndInt | tests/Feature/RuleBuilderTest.php:242-245 | `'0'` and `0` are both kept |
| Tokens.NormalizeSameObjectOnce | tests/Feature/RuleBuilderTest.php:287-290 | the same rule object or closure given twice is kept once |
| Merging.UniqueMergeSpec | src/RuleBuilder.php:93-100 | the merge keeps the tokens of both lists in order, has no loosely equal pair, and drops only tokens loosely equal to a kept one |
| Merging.UniqueMergeSplits | src/RuleBuilder.php:93-100 | the merge is the deduplicated left list followed by the right tokens the loop keeps after it |
| Merging.UniqueMergeAppends | src/RuleBuilder.php:116-128 | on a duplicate-free existing list, add keeps that list as a prefix and appends only tokens loosely equal to none of it |
| Merging.Diff | src/RuleBuilder.php:171 | array_diff keeps, in order, exactly the existing tokens whose string form matches no removed token |
| Merging.DiffAppend | src/RuleBuilder.php:171 | array_diff works item by item: the diff of a concatenation is the concatenation of the diffs, so every copy of an unmatched token is kept |
| Merging.DiffKeepsUnmatched | src/RuleBuilder.php:171 | both copies of a repeated token that matches no removed token survive |
| Merging.PrependPutsNewFirst | src/RuleBuilder.php:165-179 | prepend puts the loosely deduplicated new tokens first, in order, then a subsequence of the existing ones, none cast-equal to a new token nor loosely equal to a kept one; every existing token not cast-equal to a new one is kept or loosely equal to a kept token |
| Merging.PrependDistinctNewFirst | src/RuleBuilder.php:165-179 | new tokens that are pairwise loosely distinct all come first, exactly as given |
| Merging.PrependLooseDuplicates | src/RuleBuilder.php:165-179 | new tokens `'0'` and `0` that compare loosely equal collapse to the first one |
| Merging.PrependOnce | src/RuleBuilder.php:165-179 | with a reflexive loose equality, every token of the prepended field appears once |
| RuleSets.Put | src/RuleBuilder.php:111 | put replaces a present field in place and appends a new one at the end |
| RuleSets.FilterKeys | src/RuleBuilder.php:150 | the kept keys are a subsequence holding exactly the keys not dropped |
| RuleSets.Except | src/RuleBuilder.php:150 | except keeps exactly the fields whose names are not listed, each with its old value, in their old relative order |
| RuleSets.FlattenKeys | src/RuleBuilder.php:148 | Arr::flatten of key arguments holds exactly the names of the arguments |
| RuleSets.Seed | src/RuleBuilder.php:41-45 | the constructor produces a well-formed map |
| RuleSets.SeedSpec | src/RuleBuilder.php:41-45 | the constructor keeps the keys of its array in order and stores each field's normalised specification |
| RuleSets.SetField | src/RuleBuilder.php:109-114 | set stores the normalised tokens under the key and leaves every other field and the order alone |
| RuleSets.AddField | src/RuleBuilder.php:116-128 | add stores uniqueMerge(existing, normalised) under the key, a missing field counting as empty, and leaves the others alone |
| RuleSets.MergeAllKeys | src/RuleBuilder.php:130-144 | merge appends the missing keys in the order of the entries and keeps the position of the existing ones |
| RuleSets.MergeAllFields | src/RuleBuilder.php:130-144 | merge merges each entry into its own field and changes no other field |
| RuleSets.RemoveKeys | src/RuleBuilder.php:146-153 | remove deletes exactly the flattened keys and keeps the rest, its values and its order |
| RuleSets.RemoveMissing | src/RuleBuilder.php:146-153 | removing keys that are not present changes nothing |
| RuleSets.PrependField | src/RuleBuilder.php:165-179 | prepend stores the prepended list under the key and leaves every other field alone |
| RuleSets.PrependEachSpec | src/RuleBuilder.php:185-189 | the loop of prependAll prepends to each listed key once, skips excluded keys and adds or reorders no field |
| RuleSets.PrependAllSpec | src/RuleBuilder.php:181-192 | prependAll prepends the attribute to every field not excluded and leaves the excluded fields and the order as they were |
| RuleSets.Step | src/RuleBuilder.php:102-201 | every builder call keeps the map well formed |
| RuleSets.RunAppend | src/RuleBuilder.php:194-201 | running two chains of calls one after the other is running their concatenation |
| Builder.RuleBuilder.constructor | src/RuleBuilder.php:41-45 | the new builder holds the seeded map |
| Builder.RuleBuilder.Clear | src/RuleBuilder.php:102-107 | clear leaves the empty map |
| Builder.RuleBuilder.Set | src/RuleBuilder.php:109-114 | the field is updated in place to the result of set |
| Builder.RuleBuilder.Add | src/RuleBuilder.php:116-128 | the field is updated in place to the result of add |
| Builder.RuleBuilder.Merge | src/RuleBuilder.php:130-144 | the loop over the entries leaves the map of merge; the invariant keeps the map of the entries merged so far |
| Builder.RuleBuilder.Remove | src/RuleBuilder.php:146-153 | the map becomes the map minus the flattened keys |
| Builder.RuleBuilder.Prepend | src/RuleBuilder.php:165-179 | the field is updated in place to the result of prepend |
| Builder.RuleBuilder.PrependAll | src/RuleBuilder.php:181-192 | the loop calling prepend on the keys present at the start leaves the map of prependAll |
| Builder.RuleBuilder.PrependKeyAt | src/RuleBuilder.php:185-189 | one pass of the loop body extends the prepended prefix of keys by the next key, prepending to it unless it is excluded |
| Builder.RuleBuilder.When | src/RuleBuilder.php:194-201 | the callback's calls run only when the condition holds; with a false condition nothing changes |
| Builder.RuleBuilder.Apply | src/RuleBuilder.php:102-201 | one fluent call changes the map as its function says |
| Builder.RuleBuilder.ApplyAll | src/RuleBuilder.php:194-201 | a chain of calls changes the map as the chain's run says |
| Builder.RuleBuilder.GetRules | src/RuleBuilder.php:155-158 | get returns the current map, and that map is well formed |
| MakeCommand.KeepPathCharsSpec | src/Commands/RulesetMakeCommand.php:307 | exactly the characters of `[a-zA-Z0-9_/]` survive the filter |
| MakeCommand.KeepPathCharsAppend | src/Commands/RulesetMakeCommand.php:307 | the filter works character by character: filtering a concatenation is concatenating the filtered parts, so order and every copy are kept |
| MakeCommand.KeepPathCharsOne | src/Commands/RulesetMakeCommand.php:307 | a single character is kept exactly when it is in `[a-zA-Z0-9_/]` |
| MakeCommand.CollapseSlashesSpec | src/Commands/RulesetMakeCommand.php:310 | collapsing leaves no doubled slash and changes nothing but slashes |
| MakeCommand.CollapseSlashesSnoc | src/Commands/RulesetMakeCommand.php:310 | a character appended to the input is appended to the output unless it is a slash right after a slash, so each run of slashes leaves exactly one |
| MakeCommand.SanitizeSpec | src/Commands/RulesetMakeCommand.php:301-311 | a sanitised input holds only `[a-zA-Z0-9_/]` and no two consecutive slashes |
| MakeCommand.SanitizeCleanPath | src/Commands/RulesetMakeCommand.php:303-304 | backslashes are turned into slashes before filtering, so namespace separators survive as path separators |
| MakeCommand.SanitizeIdempotent | src/Commands/RulesetMakeCommand.php:301-311 | sanitising twice is sanitising once |
| MakeCommand.QualifyInput | src/Commands/RulesetMakeCommand.php:318-322 | the qualified name has no slash and neither starts nor ends with a backslash |
| MakeCommand.QualifyInputInverse | src/Commands/RulesetMakeCommand.php:318-322 | turning the backslashes back into slashes gives the input with its outer separators trimmed |
| MakeCommand.QualifyInputExample | src/Commands/RulesetMakeCommand.php:313-322 | `/path/to/Model/` becomes `path\to\Model` |
| MakeCommand.Segments | src/Commands/RulesetMakeCommand.php:332 | a class path has at least one segment and no segment holds a slash |
| MakeCommand.NormalizeClassNameSegments | src/Commands/RulesetMakeCommand.php:329-339 | the normalised name has the segments of the slash-trimmed input, in order, each passed through studly |
| MakeCommand.NormalizeClassNameIdentity | src/Commands/RulesetMakeCommand.php:329-339 | with studly the identity, normalising only strips the outer slashes |
| MakeCommand.ClassNameRoundTrip | src/Commands/RulesetMakeCommand.php:301-339 | a class name of plain segments sanitises to its slash form, normalises to itself and qualifies back to itself |
| MakeCommand.WithSuffix | src/Commands/RulesetMakeCommand.php:255-257 | the suffix is added only when suffixing is on and the name does not contain it, and then the result is the name followed directly by the suffix |
| MakeCommand.WithSuffixIdempotent | src/Commands/RulesetMakeCommand.php:255-257 | the suffix is never added twice |
| MakeCommand.WithSuffixExamples | src/Commands/RulesetMakeCommand.php:255-257 | `User` becomes `UserRuleset`; a name holding the suffix anywhere is kept |
| MakeCommand.MakeInputs.constructor | src/Commands/RulesetMakeCommand.php:47-48 | both input caches start empty |
| MakeCommand.MakeInputs.NameInput | src/Commands/RulesetMakeCommand.php:247-262 | a non-blank cached name is returned as is; otherwise the name is sanitised, suffixed, normalised and cached |
| MakeCommand.MakeInputs.ModelInput | src/Commands/RulesetMakeCommand.php:267-296 | a cached model is returned; no `-m` flag gives no model; otherwise the resolved model is returned and cached only when there is one |
| MakeCommand.ModelCandidate | src/Commands/RulesetMakeCommand.php:283-285 | a non-blank `-m` value is used as given; a bare flag or a blank value names Model::class |
| MakeCommand.BareModelFlagResolves | src/Commands/RulesetMakeCommand.php:283-295 | a bare `-m` flag resolves to `Illuminate/Database/Eloquent/Model` |
| MakeCommand.EloquentPathQualifies | src/Commands/RulesetMakeCommand.php:283-295 | qualifying that path gives Model::class back |
| MakeCommand.ResolvePlainModel | src/Commands/RulesetMakeCommand.php:287-295 | a fully qualified model name resolves to its path form, which qualifies back to the name |
| MakeCommand.ResolveNothingLeft | src/Commands/RulesetMakeCommand.php:287-293 | a model value with no usable character resolves to no model although the flag was given |
| MakeCommand.ModelZeroIsNoModel | src/Commands/RulesetMakeCommand.php:124 | `-m 0` resolves to the model `0`, which `(bool)` reads as no model |
| MakeCommand.ParseGen | src/Commands/RulesetMakeCommand.php:358-390 | the answer is "generate" exactly for a given flag with a blank or yes value, "skip" exactly for a no value, and "ask" otherwise |
| MakeCommand.WordLists | src/Commands/RulesetMakeCommand.php:380-386 | no word is both a yes and a no word, and none is blank |
| MakeCommand.ParseGenCaseInsensitive | src/Commands/RulesetMakeCommand.php:377 | the answer does not depend on letter case |
| MakeCommand.ParseGenWords | src/Commands/RulesetMakeCommand.php:380-386 | every yes word in any case generates and every no word skips |
| MakeCommand.UseStatementsCases | src/Commands/RulesetMakeCommand.php:521-544 | no flag gives an empty block; otherwise the abstract's line, then the model's line unless it repeats it, wrapped in line breaks |
| MakeCommand.UniquePair | src/Commands/RulesetMakeCommand.php:542 | array_unique on two lines drops the second exactly when it repeats the first |
| MakeCommand.BeforeLast | src/Commands/RulesetMakeCommand.php:147 | beforeLast cuts at the last occurrence of the character, or keeps the whole string when there is none |
| MakeCommand.BeforeLastAppend | src/Commands/RulesetMakeCommand.php:147-149 | cutting after an appended separator and name gives back what preceded them |
| MakeCommand.ExpectedIntermediateSameNamespace | src/Commands/RulesetMakeCommand.php:146-149 | the expected intermediate lives in the ruleset's namespace and carries the model or plain intermediate name |
| ListCommand.OnlyFilters | src/Commands/RulesetListCommand.php:50-54 | abstract-only and concrete-only are never both on, nor standard-only and model-only; giving both flags of a pair turns both off |
| ListCommand.Accepts | src/Commands/RulesetListCommand.php:173-192 | a class is listed exactly when it matches every active filter |
| ListCommand.AcceptsWithoutFilters | src/Commands/RulesetListCommand.php:181-192 | without a standard or model filter the model check is irrelevant; with no filter everything is listed |
| ListCommand.AcceptsFlags | src/Commands/RulesetListCommand.php:174-190 | in terms of the flags as given: a class matches each flag whose partner was not also given |
| ListCommand.FilterNames | src/Commands/RulesetListCommand.php:104-110 | the names shown are exactly those of the set flags (none when all four are set), in strictly increasing order Abstract, Concrete, Standard, Model |
| ListCommand.FilterLabelAll | src/Commands/RulesetListCommand.php:98-114 | the label reads "All Rulesets" exactly when no flag or all four flags are set |
| ListCommand.FilterLabelSingle | src/Commands/RulesetListCommand.php:104-112 | one set flag is named on its own |
| ListCommand.FilterLabelOrder | src/Commands/RulesetListCommand.php:104-112 | two worked cases: Abstract with Model, and Concrete with Standard, are comma-joined in that order |
| ListCommand.TagRoundTrip | src/Commands/RulesetListCommand.php:119-134 | the text of a colour tag can be read back |
| ListCommand.ColorizeLabels | src/Commands/RulesetListCommand.php:119-134 | each helper shows its two values differently, and each label carries the plain kind name |
| ListCommand.ListedLabels | src/Commands/RulesetListCommand.php:119-192 | a class listed under an active filter is shown with that filter's label |

## Left out

- Calls to the top level of `normalizeRules` with something other than a string or an array raise a PHP TypeError. This is not modelled: such values are normalised as they would be inside an array.
- The internals of PHP's loose `==` and of the `(string)` casts of `array_diff` are not modelled. Both are relations given as parameters, so no property depends on PHP's conversion tables.
- `array_diff` casts the items of both lists to string, so it throws when either list holds an object without `__toString` (a closure or a plain `Rule` object) and the other list is not empty. `prepend` and `prependAll` therefore fail on such fields in PHP; this exception is not modelled, and `Diff` compares such objects through the cast relation instead.
- Dedup.Unique and Merging.UniqueMerge: the loose `unique()` is modelled as "keep the first occurrence, drop every later item loosely equal to a kept one". Laravel runs `array_unique($items, SORT_REGULAR)` there, which sorts and drops items equal to their sorted neighbour. The two agree when loose `==` is an equivalence consistent with PHP's ordering (ordinary rule strings, `'0'` and `0`), but not for mixes of numeric and non-numeric strings whose PHP 8 order is cyclic, where a repeated item can survive. `Merging.UniqueMergeSpec`'s "no loosely equal pair" holds for the model, not for those inputs.
- Floats and booleans as rule values are not modelled: tokens are strings, integers and opaque objects.
- Blank objects (an empty Countable) are not modelled: objects are never blank here.
- Laravel Collections passed as rule values are not modelled: they are treated as opaque objects.
- Keys are strings. PHP's coercion of numeric-string keys to integers, which affects the strict `in_array` in `prependAll`, is not modelled.
- `Arr::forget` dot-path removal inside nested arrays is not modelled: `remove` deletes top-level keys only.
- The `when` callback is an arbitrary PHP callable. The model takes it as a script of builder calls, so callbacks with other effects are not captured.
- `collect()` returns the same content as `get()` and has no row of its own. `new()` is the constructor.
- Console I/O is not modelled: reading options, interactive prompts, colours on screen and the list table. Options and the answers of the prompt's callers are parameters; the `--gen` prompt is the answer `Ask`.
- Structure discovery, reflection (`isAbstract`, `isModelRuleset`, `colorizeExtends`), stub loading and rendering, and file writing are not modelled. Their answers are parameters.
- `PHP_EOL` is taken to be `"\n"`.
- `Str::lower` is taken to be ASCII lower-casing.
- `Str::studly` is a parameter, an uninterpreted function. Properties that need it are stated under the assumption that it keeps the given segments.
- The configuration lookups of `Package` (the suffix, whether suffixing is on) are parameters. `DefaultSuffix` records the shipped default.
- `initializeContextVariables` assigns many fields from the inputs. Only the intermediate class name and the expected intermediate class name it derives are modelled.
