/**
 * RuleBuilder (src/RuleBuilder.php): the fluent builder object. Its one
 * piece of state, the `$rules` Collection, is changed in place by every
 * call; each method is proved to leave exactly the rule set that the
 * matching RuleSets function describes, and to keep the map well formed.
 */
module Builder {
  import opened Tokens
  import opened Merging
  import opened RuleSets

  class RuleBuilder {
    /** PHP's loose `==` on tokens, as Collection::unique() applies it. */
    const looseEq: TokenEq
    /** Equality of the `(string)` casts, as array_diff() applies it. */
    const castEq: TokenEq
    /** The `$rules` Collection. */
    var rules: RuleSet

    predicate Valid()
      reads this
    {
      RuleSets.Valid(rules)
    }

    /** RuleBuilder::new($rules) / __construct($rules) */
    constructor (looseEq: TokenEq, castEq: TokenEq, entries: seq<(string, RuleSpec)>)
      ensures this.looseEq == looseEq && this.castEq == castEq
      ensures rules == Seed(entries)
      ensures Valid()
    {
      this.looseEq := looseEq;
      this.castEq := castEq;
      rules := Seed(entries);
    }

    method Clear()
      modifies this
      ensures rules == Empty && Valid()
    {
      rules := Empty;
    }

    method Set(key: string, specs: seq<RuleSpec>)
      requires Valid()
      modifies this
      ensures rules == SetField(old(rules), key, specs) && Valid()
    {
      rules := Put(rules, key, Normalize(specs));
    }

    method Add(key: string, specs: seq<RuleSpec>)
      requires Valid()
      modifies this
      ensures rules == AddField(looseEq, old(rules), key, specs) && Valid()
    {
      var existing := Get(rules, key);
      var normalized := Normalize(specs);
      rules := Put(rules, key, UniqueMerge(looseEq, existing, normalized));
    }

    /** merge($entries): one put per entry, in the order of the array. */
    method Merge(entries: seq<(string, RuleSpec)>)
      requires Valid()
      modifies this
      ensures rules == MergeAll(looseEq, old(rules), entries) && Valid()
    {
      var i := 0;
      while i < |entries|
        invariant 0 <= i <= |entries|
        invariant rules == MergeAll(looseEq, old(rules), entries[..i])
        invariant Valid()
      {
        var existing := Get(rules, entries[i].0);
        var added := Normalize([entries[i].1]);
        assert entries[..i + 1][..i] == entries[..i];
        rules := Put(rules, entries[i].0, UniqueMerge(looseEq, existing, added));
        i := i + 1;
      }
      assert entries[..i] == entries;
    }

    method Remove(keys: seq<KeySpec>)
      requires Valid()
      modifies this
      ensures rules == RemoveKeys(old(rules), keys) && Valid()
    {
      rules := Except(rules, FlattenKeys(keys));
    }

    method Prepend(key: string, specs: seq<RuleSpec>)
      requires Valid()
      modifies this
      ensures rules == PrependField(looseEq, castEq, old(rules), key, specs) && Valid()
    {
      var existing := Get(rules, key);
      var normalized := Normalize(specs);
      var remaining := Diff(castEq, existing, normalized);
      rules := Put(rules, key, UniqueMerge(looseEq, normalized, remaining));
    }

    /** prependAll($attribute, ...$except): the loop walks the keys the map
        had when it started, calling prepend() on each one not excluded. */
    method PrependAll(attribute: RuleSpec, except: seq<KeySpec>)
      requires Valid()
      modifies this
      ensures rules == PrependAllFields(looseEq, castEq, old(rules), attribute, except) && Valid()
    {
      var excluded := FlattenKeys(except);
      ghost var start := rules;
      var keys := rules.keys;
      var i := 0;
      while i < |keys|
        invariant 0 <= i <= |keys|
        invariant rules == PrependEach(looseEq, castEq, start, keys[..i], attribute, excluded)
        invariant Valid()
      {
        PrependKeyAt(start, keys, i, attribute, excluded);
        i := i + 1;
      }
      assert keys[..i] == keys;
    }

    /** One iteration of the prependAll() loop: prepend() on the `i`-th key
        unless it is excluded. */
    method PrependKeyAt(ghost start: RuleSet, keys: seq<string>, i: nat, attribute: RuleSpec, excluded: seq<string>)
      requires i < |keys| && Valid()
      requires rules == PrependEach(looseEq, castEq, start, keys[..i], attribute, excluded)
      modifies this
      ensures rules == PrependEach(looseEq, castEq, start, keys[..i + 1], attribute, excluded)
      ensures Valid()
    {
      PrependEachStep(looseEq, castEq, start, keys, i, attribute, excluded);
      if keys[i] !in excluded {
        Prepend(keys[i], [attribute]);
      }
    }

    /** when($condition, $callback): the callback's calls run only when the
        condition holds; otherwise nothing changes. */
    method When(condition: bool, callback: seq<Op>)
      requires Valid()
      modifies this
      ensures rules == Step(looseEq, castEq, old(rules), WhenOp(condition, callback)) && Valid()
      ensures !condition ==> rules == old(rules)
      decreases callback, 1
    {
      if condition {
        ApplyAll(callback);
      }
    }

    /** One call of the builder's fluent interface. */
    method Apply(op: Op)
      requires Valid()
      modifies this
      ensures rules == Step(looseEq, castEq, old(rules), op) && Valid()
      decreases op, 2
    {
      match op
      case ClearOp => Clear();
      case SetOp(key, specs) => Set(key, specs);
      case AddOp(key, specs) => Add(key, specs);
      case MergeOp(entries) => Merge(entries);
      case RemoveOp(keys) => Remove(keys);
      case PrependOp(key, specs) => Prepend(key, specs);
      case PrependAllOp(attribute, except) => PrependAll(attribute, except);
      case WhenOp(condition, callback) => When(condition, callback);
    }

    /** A chain of fluent calls, first to last. */
    method ApplyAll(ops: seq<Op>)
      requires Valid()
      modifies this
      ensures rules == Run(looseEq, castEq, old(rules), ops) && Valid()
      decreases ops, 0
    {
      var i := 0;
      while i < |ops|
        invariant 0 <= i <= |ops|
        invariant Run(looseEq, castEq, rules, ops[i..]) == Run(looseEq, castEq, old(rules), ops)
        invariant Valid()
      {
        assert ops[i..][1..] == ops[i + 1..];
        Apply(ops[i]);
        i := i + 1;
      }
    }

    /** get(): the rules as an array. */
    method GetRules() returns (r: RuleSet)
      requires Valid()
      ensures r == rules && RuleSets.Valid(r)
    {
      r := rules;
    }
  }
}
