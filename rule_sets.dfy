/**
 * The `$rules` Collection of RuleBuilder (src/RuleBuilder.php) as a value:
 * an ordered map from field name to token list, and every builder
 * operation as a function from the old map to the new one.
 */
module RuleSets {
  import opened Dedup
  import opened Tokens
  import opened Merging

  /** Field names in insertion order, and the token list of each field. */
  datatype RuleSet = RuleSet(keys: seq<string>, fields: map<string, seq<Token>>)

  predicate Distinct(keys: seq<string>)
  {
    forall i, j :: 0 <= i < j < |keys| ==> keys[i] != keys[j]
  }

  /** Every field name appears once in the order, and the order lists
      exactly the fields that have rules. */
  predicate Valid(rs: RuleSet)
  {
    && Distinct(rs.keys)
    && (forall k | k in rs.fields :: k in rs.keys)
    && (forall k | k in rs.keys :: k in rs.fields)
  }

  const Empty: RuleSet := RuleSet([], map[])

  /** (array) $rules->get($key, []): a missing field reads as no rules. */
  function Get(rs: RuleSet, key: string): seq<Token>
  {
    if key in rs.fields then rs.fields[key] else []
  }

  /** Collection::put: replace the field in place, or append a new one. */
  function Put(rs: RuleSet, key: string, value: seq<Token>): (r: RuleSet)
    ensures r.fields == rs.fields[key := value]
    ensures r.keys == if key in rs.keys then rs.keys else rs.keys + [key]
    ensures Valid(rs) ==> Valid(r)
  {
    RuleSet(if key in rs.keys then rs.keys else rs.keys + [key], rs.fields[key := value])
  }

  /** The keys of `keys` that are not in `drop`, in their order. */
  function FilterKeys(keys: seq<string>, drop: seq<string>): (r: seq<string>)
    ensures Subsequence(r, keys)
    ensures forall k :: k in r <==> k in keys && k !in drop
    ensures Distinct(keys) ==> Distinct(r)
  {
    if keys == [] then []
    else
      var rest := FilterKeys(keys[1..], drop);
      assert forall k :: k in keys <==> k == keys[0] || k in keys[1..];
      if keys[0] in drop then rest
      else
        assert ([keys[0]] + rest)[1..] == rest;
        assert Distinct(keys) ==> keys[0] !in keys[1..];
        [keys[0]] + rest
  }

  lemma {:induction false} FilterKeysSnoc(keys: seq<string>, x: string, drop: seq<string>)
    ensures FilterKeys(keys + [x], drop) == FilterKeys(keys, drop) + (if x in drop then [] else [x])
  {
    if keys == [] {
      assert [x][1..] == [];
      assert keys + [x] == [x];
    } else {
      assert (keys + [x])[1..] == keys[1..] + [x];
      FilterKeysSnoc(keys[1..], x, drop);
    }
  }

  /** Collection::except: the fields not named in `drop`, order kept. */
  function Except(rs: RuleSet, drop: seq<string>): (r: RuleSet)
    ensures forall k :: k in r.fields <==> k in rs.fields && k !in drop
    ensures forall k :: k in r.fields ==> r.fields[k] == rs.fields[k]
    ensures forall k :: k in r.keys <==> k in rs.keys && k !in drop
    ensures Subsequence(r.keys, rs.keys)
    ensures Valid(rs) ==> Valid(r)
  {
    RuleSet(FilterKeys(rs.keys, drop), map k | k in rs.fields && k !in drop :: rs.fields[k])
  }

  /** A key argument of remove() and prependAll(): a name or a nested array of them. */
  datatype KeySpec = Key(name: string) | Keys(items: seq<KeySpec>)

  /** Arr::flatten of key arguments: every name, depth-first, left to right. */
  function FlattenKey(spec: KeySpec): (r: seq<string>)
    ensures spec.Key? ==> r == [spec.name]
    decreases spec, 1
  {
    match spec
    case Key(name) => [name]
    case Keys(items) => FlattenKeys(items)
  }

  function FlattenKeys(specs: seq<KeySpec>): (r: seq<string>)
    ensures forall k :: k in r <==> exists i :: 0 <= i < |specs| && k in FlattenKey(specs[i])
    decreases specs, 0
  {
    if specs == [] then []
    else
      var r := FlattenKey(specs[0]) + FlattenKeys(specs[1..]);
      assert forall i :: 1 <= i < |specs| ==> specs[i] == specs[1..][i - 1];
      r
  }

  /** The constructor: each field's specification normalised, keys kept. */
  function Seed(entries: seq<(string, RuleSpec)>): (r: RuleSet)
    ensures Valid(r)
  {
    if entries == [] then Empty
    else
      var last := entries[|entries| - 1];
      Put(Seed(entries[..|entries| - 1]), last.0, Normalize([last.1]))
  }

  /** The keys of an array given as its entries, in order. */
  function EntryKeys(entries: seq<(string, RuleSpec)>): (r: seq<string>)
    ensures |r| == |entries| && forall i :: 0 <= i < |entries| ==> r[i] == entries[i].0
  {
    seq(|entries|, i requires 0 <= i < |entries| => entries[i].0)
  }

  /** set($key, ...$specs) */
  function SetField(rs: RuleSet, key: string, specs: seq<RuleSpec>): (r: RuleSet)
    ensures key in r.fields && r.fields[key] == Normalize(specs)
    ensures forall k :: k != key ==> Get(r, k) == Get(rs, k) && (k in r.fields <==> k in rs.fields)
    ensures r.keys == if key in rs.keys then rs.keys else rs.keys + [key]
    ensures Valid(rs) ==> Valid(r)
  {
    Put(rs, key, Normalize(specs))
  }

  /** add($key, ...$specs) */
  function AddField(looseEq: TokenEq, rs: RuleSet, key: string, specs: seq<RuleSpec>): (r: RuleSet)
    ensures key in r.fields && r.fields[key] == UniqueMerge(looseEq, Get(rs, key), Normalize(specs))
    ensures forall k :: k != key ==> Get(r, k) == Get(rs, k) && (k in r.fields <==> k in rs.fields)
    ensures r.keys == if key in rs.keys then rs.keys else rs.keys + [key]
    ensures Valid(rs) ==> Valid(r)
  {
    Put(rs, key, UniqueMerge(looseEq, Get(rs, key), Normalize(specs)))
  }

  /** One iteration of merge(): `$key => $value` merged into the field. */
  function MergeEntry(looseEq: TokenEq, rs: RuleSet, entry: (string, RuleSpec)): (r: RuleSet)
    ensures Valid(rs) ==> Valid(r)
  {
    AddField(looseEq, rs, entry.0, [entry.1])
  }

  /** merge($entries): the entries merged one after the other, in order. */
  function MergeAll(looseEq: TokenEq, rs: RuleSet, entries: seq<(string, RuleSpec)>): (r: RuleSet)
    ensures Valid(rs) ==> Valid(r)
  {
    if entries == [] then rs
    else MergeEntry(looseEq, MergeAll(looseEq, rs, entries[..|entries| - 1]), entries[|entries| - 1])
  }

  /** remove(...$keys) */
  function RemoveKeys(rs: RuleSet, keys: seq<KeySpec>): (r: RuleSet)
    ensures forall k :: k in r.fields <==> k in rs.fields && k !in FlattenKeys(keys)
    ensures forall k :: k in r.fields ==> r.fields[k] == rs.fields[k]
    ensures Subsequence(r.keys, rs.keys)
    ensures Valid(rs) ==> Valid(r)
  {
    Except(rs, FlattenKeys(keys))
  }

  /** prepend($key, ...$specs) */
  function PrependField(looseEq: TokenEq, castEq: TokenEq, rs: RuleSet, key: string, specs: seq<RuleSpec>): (r: RuleSet)
    ensures key in r.fields && r.fields[key] == PrependTokens(looseEq, castEq, Get(rs, key), Normalize(specs))
    ensures forall k :: k != key ==> Get(r, k) == Get(rs, k) && (k in r.fields <==> k in rs.fields)
    ensures r.keys == if key in rs.keys then rs.keys else rs.keys + [key]
    ensures Valid(rs) ==> Valid(r)
  {
    Put(rs, key, PrependTokens(looseEq, castEq, Get(rs, key), Normalize(specs)))
  }

  /** The loop of prependAll() over the listed keys, in order. */
  function PrependEach(looseEq: TokenEq, castEq: TokenEq, rs: RuleSet, keys: seq<string>,
                       attribute: RuleSpec, excluded: seq<string>): (r: RuleSet)
    ensures Valid(rs) ==> Valid(r)
  {
    if keys == [] then rs
    else
      var before := PrependEach(looseEq, castEq, rs, keys[..|keys| - 1], attribute, excluded);
      var key := keys[|keys| - 1];
      if key in excluded then before else PrependField(looseEq, castEq, before, key, [attribute])
  }

  /** One more iteration of the prependAll() loop. */
  lemma PrependEachStep(looseEq: TokenEq, castEq: TokenEq, rs: RuleSet, keys: seq<string>, i: nat,
                        attribute: RuleSpec, excluded: seq<string>)
    requires i < |keys|
    ensures var before := PrependEach(looseEq, castEq, rs, keys[..i], attribute, excluded);
      PrependEach(looseEq, castEq, rs, keys[..i + 1], attribute, excluded)
        == if keys[i] in excluded then before else PrependField(looseEq, castEq, before, keys[i], [attribute])
  {
    assert keys[..i + 1][..i] == keys[..i];
  }

  /** prependAll($attribute, ...$except) */
  function PrependAllFields(looseEq: TokenEq, castEq: TokenEq, rs: RuleSet, attribute: RuleSpec,
                            except: seq<KeySpec>): (r: RuleSet)
    ensures Valid(rs) ==> Valid(r)
  {
    PrependEach(looseEq, castEq, rs, rs.keys, attribute, FlattenKeys(except))
  }

  /** A call the callback of when() makes on the builder. */
  datatype Op =
    | ClearOp
    | SetOp(key: string, specs: seq<RuleSpec>)
    | AddOp(key: string, specs: seq<RuleSpec>)
    | MergeOp(entries: seq<(string, RuleSpec)>)
    | RemoveOp(keys: seq<KeySpec>)
    | PrependOp(key: string, specs: seq<RuleSpec>)
    | PrependAllOp(attribute: RuleSpec, except: seq<KeySpec>)
    | WhenOp(condition: bool, callback: seq<Op>)

  /** The effect of one builder call. */
  function Step(looseEq: TokenEq, castEq: TokenEq, rs: RuleSet, op: Op): (r: RuleSet)
    ensures Valid(rs) ==> Valid(r)
    decreases op, 1
  {
    match op
    case ClearOp => Empty
    case SetOp(key, specs) => SetField(rs, key, specs)
    case AddOp(key, specs) => AddField(looseEq, rs, key, specs)
    case MergeOp(entries) => MergeAll(looseEq, rs, entries)
    case RemoveOp(keys) => RemoveKeys(rs, keys)
    case PrependOp(key, specs) => PrependField(looseEq, castEq, rs, key, specs)
    case PrependAllOp(attribute, except) => PrependAllFields(looseEq, castEq, rs, attribute, except)
    case WhenOp(condition, callback) => if condition then Run(looseEq, castEq, rs, callback) else rs
  }

  /** A chain of builder calls, first to last. */
  function Run(looseEq: TokenEq, castEq: TokenEq, rs: RuleSet, ops: seq<Op>): (r: RuleSet)
    ensures Valid(rs) ==> Valid(r)
    decreases ops, 0
  {
    if ops == [] then rs
    else Run(looseEq, castEq, Step(looseEq, castEq, rs, ops[0]), ops[1..])
  }

  /** The last of distinct keys does not occur before it. */
  lemma LastKeyIsNew(entries: seq<(string, RuleSpec)>)
    requires entries != [] && Distinct(EntryKeys(entries))
    ensures var n := |entries| - 1;
      && EntryKeys(entries) == EntryKeys(entries[..n]) + [entries[n].0]
      && Distinct(EntryKeys(entries[..n]))
      && entries[n].0 !in EntryKeys(entries[..n])
      && forall i :: 0 <= i < n ==> entries[i].0 != entries[n].0 && entries[i] == entries[..n][i]
  {
    var n := |entries| - 1;
    var ks := EntryKeys(entries);
    assert EntryKeys(entries[..n]) == ks[..n];
    assert forall i :: 0 <= i < n ==> ks[i] != ks[n];
  }

  /** The constructor keeps the keys of its array, in order, and stores each
      field's normalised specification. */
  lemma {:induction false} SeedSpec(entries: seq<(string, RuleSpec)>)
    requires Distinct(EntryKeys(entries))
    ensures var r := Seed(entries);
      && Valid(r)
      && r.keys == EntryKeys(entries)
      && (forall i :: 0 <= i < |entries| ==>
            entries[i].0 in r.fields && r.fields[entries[i].0] == Normalize([entries[i].1]))
  {
    if entries != [] {
      var n := |entries| - 1;
      LastKeyIsNew(entries);
      SeedSpec(entries[..n]);
    }
  }

  /** merge() creates the missing keys, appended in the order of the
      entries, and keeps the position of the existing ones. */
  lemma {:induction false} MergeAllKeys(looseEq: TokenEq, rs: RuleSet, entries: seq<(string, RuleSpec)>)
    requires Valid(rs)
    requires Distinct(EntryKeys(entries))
    ensures MergeAll(looseEq, rs, entries).keys == rs.keys + FilterKeys(EntryKeys(entries), rs.keys)
  {
    if entries == [] {
      assert rs.keys + [] == rs.keys;
    } else {
      var n := |entries| - 1;
      LastKeyIsNew(entries);
      MergeAllKeys(looseEq, rs, entries[..n]);
      MergeAllKeysStep(looseEq, rs, entries);
    }
  }

  /** One more entry of merge() appends its key exactly when it is new. */
  lemma MergeAllKeysStep(looseEq: TokenEq, rs: RuleSet, entries: seq<(string, RuleSpec)>)
    requires entries != []
    requires var n := |entries| - 1;
      && EntryKeys(entries) == EntryKeys(entries[..n]) + [entries[n].0]
      && entries[n].0 !in EntryKeys(entries[..n])
      && MergeAll(looseEq, rs, entries[..n]).keys == rs.keys + FilterKeys(EntryKeys(entries[..n]), rs.keys)
    ensures MergeAll(looseEq, rs, entries).keys == rs.keys + FilterKeys(EntryKeys(entries), rs.keys)
  {
    var n := |entries| - 1;
    var key := entries[n].0;
    var added := FilterKeys(EntryKeys(entries[..n]), rs.keys);
    assert key !in added;
    FilterKeysSnoc(EntryKeys(entries[..n]), key, rs.keys);
    var last: seq<string> := if key in rs.keys then [] else [key];
    assert rs.keys + added + last == rs.keys + (added + last);
  }

  /** merge() merges each entry into its own field and leaves every other
      field alone. */
  lemma {:induction false} MergeAllFields(looseEq: TokenEq, rs: RuleSet, entries: seq<(string, RuleSpec)>)
    requires Distinct(EntryKeys(entries))
    ensures var r := MergeAll(looseEq, rs, entries);
      && (forall k :: k in r.fields <==> k in rs.fields || k in EntryKeys(entries))
      && (forall i :: 0 <= i < |entries| ==>
            Get(r, entries[i].0) == UniqueMerge(looseEq, Get(rs, entries[i].0), Normalize([entries[i].1])))
      && (forall k :: k !in EntryKeys(entries) ==> Get(r, k) == Get(rs, k))
  {
    if entries != [] {
      var n := |entries| - 1;
      LastKeyIsNew(entries);
      MergeAllFields(looseEq, rs, entries[..n]);
    }
  }

  /** Filtering out keys none of which occur changes nothing. */
  lemma {:induction false} FilterKeysNone(keys: seq<string>, drop: seq<string>)
    requires forall k :: k in keys ==> k !in drop
    ensures FilterKeys(keys, drop) == keys
  {
    if keys != [] {
      assert forall k :: k in keys[1..] ==> k in keys;
      FilterKeysNone(keys[1..], drop);
      assert [keys[0]] + keys[1..] == keys;
    }
  }

  /** remove() of keys that are not present is a no-op. */
  lemma RemoveMissing(rs: RuleSet, keys: seq<KeySpec>)
    requires Valid(rs)
    requires forall k :: k in FlattenKeys(keys) ==> k !in rs.fields
    ensures RemoveKeys(rs, keys) == rs
  {
    var drop := FlattenKeys(keys);
    FilterKeysNone(rs.keys, drop);
    var r := RemoveKeys(rs, keys);
    assert r.fields == rs.fields;
  }

  /** The loop of prependAll() prepends to each listed key exactly once,
      skips the excluded ones, and adds or reorders no field. */
  lemma {:induction false} PrependEachSpec(looseEq: TokenEq, castEq: TokenEq, rs: RuleSet, keys: seq<string>,
                                           attribute: RuleSpec, excluded: seq<string>)
    requires Valid(rs)
    requires Distinct(keys)
    requires forall k :: k in keys ==> k in rs.fields
    ensures var r := PrependEach(looseEq, castEq, rs, keys, attribute, excluded);
      && r.keys == rs.keys
      && (forall k :: k in r.fields <==> k in rs.fields)
      && (forall k | k in rs.fields :: r.fields[k] ==
            if k in keys && k !in excluded
            then PrependTokens(looseEq, castEq, rs.fields[k], Normalize([attribute]))
            else rs.fields[k])
  {
    if keys != [] {
      var n := |keys| - 1;
      var p := keys[..n];
      var key := keys[n];
      assert forall k :: k in keys <==> k in p || k == key;
      assert key !in p by {
        assert forall i :: 0 <= i < n ==> keys[i] != keys[n];
      }
      PrependEachSpec(looseEq, castEq, rs, p, attribute, excluded);
    }
  }

  /** prependAll() prepends the attribute to every field not excluded and
      leaves the excluded fields and the field order as they were. */
  lemma PrependAllSpec(looseEq: TokenEq, castEq: TokenEq, rs: RuleSet, attribute: RuleSpec, except: seq<KeySpec>)
    requires Valid(rs)
    ensures var r := PrependAllFields(looseEq, castEq, rs, attribute, except);
      && r.keys == rs.keys
      && (forall k :: k in r.fields <==> k in rs.fields)
      && (forall k | k in rs.fields :: r.fields[k] ==
            if k !in FlattenKeys(except)
            then PrependTokens(looseEq, castEq, rs.fields[k], Normalize([attribute]))
            else rs.fields[k])
  {
    PrependEachSpec(looseEq, castEq, rs, rs.keys, attribute, FlattenKeys(except));
  }

  /** Calls chain: running two scripts one after the other is running their
      concatenation. */
  lemma {:induction false} RunAppend(looseEq: TokenEq, castEq: TokenEq, rs: RuleSet, a: seq<Op>, b: seq<Op>)
    ensures Run(looseEq, castEq, rs, a + b) == Run(looseEq, castEq, Run(looseEq, castEq, rs, a), b)
    decreases |a|
  {
    if a == [] {
      assert a + b == b;
    } else {
      assert (a + b)[0] == a[0];
      assert (a + b)[1..] == a[1..] + b;
      RunAppend(looseEq, castEq, Step(looseEq, castEq, rs, a[0]), a[1..], b);
    }
  }
}
