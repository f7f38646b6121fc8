/**
 * The enumeration container: a fixed prefix plus a set of named string
 * constants, each valued by the prefixing rule.  The object's JavaScript
 * properties are modelled as an explicit map from name to value; the
 * non-enumerable `prefix` property is a separate field and never an entry.
 */
module Enums {
  import opened Wrappers

  /** An enumeration instance: its prefix and its own enumerable entries. */
  datatype Enum = Enum(prefix: string, entries: map<string, string>)

  /** The two errors `add` and `remove` throw. */
  datatype EnumError =
    | DuplicateKey(name: string)  // the name is already a (truthy) entry
    | MissingKey(name: string)    // the name is not an own entry

  /** True iff `s` starts with `p`. */
  predicate IsPrefixOf(p: string, s: string)
  {
    |p| <= |s| && s[..|p|] == p
  }

  /** True iff `s` ends with `t`. */
  predicate IsSuffixOf(t: string, s: string)
  {
    |t| <= |s| && s[|s| - |t|..] == t
  }

  /**
   * The prefixing rule: the value of entry `item` under `prefix` is
   * `prefix-item` when the prefix is non-empty, and `item` itself otherwise.
   */
  function SetPrefix(item: string, prefix: string): string
  {
    if prefix != "" then prefix + "-" + item else item
  }

  /**
   * The shape of a prefixed value: the name is a suffix of it; a non-empty
   * prefix and one separator precede the name; an empty prefix adds nothing.
   * In particular the value is empty (falsy) exactly when both the name and
   * the prefix are.
   */
  lemma SetPrefixShape(item: string, prefix: string)
    ensures IsSuffixOf(item, SetPrefix(item, prefix))
    ensures prefix != "" ==>
      IsPrefixOf(prefix + "-", SetPrefix(item, prefix)) && |SetPrefix(item, prefix)| == |prefix| + 1 + |item|
    ensures prefix == "" ==> |SetPrefix(item, prefix)| == |item|
    ensures SetPrefix(item, prefix) == "" <==> item == "" && prefix == ""
  {
    if prefix != "" {
      var v := SetPrefix(item, prefix);
      assert v[..|prefix| + 1] == prefix + "-";
      assert v[|v| - |item|..] == item;
    }
  }

  /** Under one prefix, distinct names never share a value. */
  lemma SetPrefixInjective(a: string, b: string, prefix: string)
    ensures SetPrefix(a, prefix) == SetPrefix(b, prefix) <==> a == b
  {
    if SetPrefix(a, prefix) == SetPrefix(b, prefix) {
      SetPrefixShape(a, prefix);
      SetPrefixShape(b, prefix);
      var v := SetPrefix(a, prefix);
      assert |a| == |b|;
      assert a == v[|v| - |a|..] == b;
    }
  }

  /**
   * Prefixing twice is prefixing once with the joined prefix: a name valued
   * under `inner` and then re-prefixed by `outer` equals the name valued
   * under `outer-inner`, provided both prefixes are non-empty.
   */
  lemma SetPrefixCompose(item: string, inner: string, outer: string)
    requires inner != "" && outer != ""
    ensures SetPrefix(item, outer + "-" + inner) == SetPrefix(SetPrefix(item, inner), outer)
  {
    assert outer + "-" + inner + "-" + item == outer + "-" + (inner + "-" + item);
  }

  /** Every entry carries the value the prefixing rule gives its name. */
  predicate Valid(e: Enum)
  {
    forall n | n in e.entries :: e.entries[n] == SetPrefix(n, e.prefix)
  }

  /** The number of own enumerable entries; `prefix` is not counted. */
  function Size(e: Enum): nat
  {
    |e.entries|
  }

  /** The set of names occurring in `keys`. */
  function Names(keys: seq<string>): set<string>
  {
    set k | k in keys
  }

  /** Reference construction: one entry per name of `names`, valued by the prefixing rule. */
  function FromNames(names: set<string>, prefix: string): (e: Enum)
    ensures e.prefix == prefix && e.entries.Keys == names
    ensures Valid(e)
  {
    Enum(prefix, map n | n in names :: SetPrefix(n, prefix))
  }

  /**
   * The constructor: visits the names in order, defining one entry per
   * name; a repeated name redefines its entry with the same value.
   */
  function Construct(keys: seq<string>, prefix: string): (e: Enum)
    ensures e.prefix == prefix
    ensures e.entries.Keys == Names(keys)
    ensures Valid(e)
    decreases |keys|
  {
    if keys == [] then Enum(prefix, map[])
    else
      var rest := Construct(keys[..|keys| - 1], prefix);
      var item := keys[|keys| - 1];
      assert keys == keys[..|keys| - 1] + [item];
      Enum(prefix, rest.entries[item := SetPrefix(item, prefix)])
  }

  /** The constructor agrees with the reference construction: the order of the names does not matter. */
  lemma ConstructIsFromNames(keys: seq<string>, prefix: string)
    ensures Construct(keys, prefix) == FromNames(Names(keys), prefix)
  {
    var e := Construct(keys, prefix);
    var f := FromNames(Names(keys), prefix);
    assert e.entries == f.entries;
  }

  /** True iff no name occurs twice in `keys`. */
  predicate Distinct(keys: seq<string>)
  {
    forall i, j | 0 <= i < j < |keys| :: keys[i] != keys[j]
  }

  /** A list without repeats has as many distinct names as elements. */
  lemma {:induction false} DistinctCardinality(keys: seq<string>)
    requires Distinct(keys)
    ensures |Names(keys)| == |keys|
    decreases |keys|
  {
    if keys != [] {
      var init := keys[..|keys| - 1];
      var last := keys[|keys| - 1];
      assert Distinct(init);
      DistinctCardinality(init);
      assert keys == init + [last];
      assert Names(keys) == Names(init) + {last};
      assert last !in Names(init);
    }
  }

  /** Constructing from a list of distinct names yields exactly one entry per name. */
  lemma ConstructSize(keys: seq<string>, prefix: string)
    requires Distinct(keys)
    ensures Size(Construct(keys, prefix)) == |keys|
  {
    DistinctCardinality(keys);
    assert Construct(keys, prefix).entries.Keys == Names(keys);
  }

  /**
   * `add`: throws the duplicate-key error when the name is an own entry
   * whose value is truthy (non-empty); otherwise defines the entry with the
   * prefixed value under the instance's own prefix.
   */
  function Add(e: Enum, item: string): (r: Result<Enum, EnumError>)
    ensures r.Failure? <==> item in e.entries && e.entries[item] != ""
    ensures r.Failure? ==> r.error == DuplicateKey(item)
    ensures r.Success? ==>
      && r.value.prefix == e.prefix
      && r.value.entries.Keys == e.entries.Keys + {item}
      && r.value.entries[item] == SetPrefix(item, e.prefix)
      && (forall n | n in e.entries && n != item :: r.value.entries[n] == e.entries[n])
    ensures r.Success? && item !in e.entries ==> Size(r.value) == Size(e) + 1
  {
    if item in e.entries && e.entries[item] != "" then
      Failure(DuplicateKey(item))
    else
      Success(Enum(e.prefix, e.entries[item := SetPrefix(item, e.prefix)]))
  }

  /** `add` keeps an Enum well formed. */
  lemma AddValid(e: Enum, item: string)
    requires Valid(e) && Add(e, item).Success?
    ensures Valid(Add(e, item).value)
  {
  }

  /**
   * On a well-formed Enum, a successful `add` of a present name (possible
   * only for an entry whose value is empty) changes nothing.
   */
  lemma AddPresentUnchanged(e: Enum, item: string)
    requires Valid(e) && item in e.entries && Add(e, item).Success?
    ensures Add(e, item).value == e
  {
    assert Add(e, item).value.entries == e.entries;
  }

  /**
   * `remove`: throws the missing-key error when the name is not an own
   * entry; otherwise deletes exactly that entry.
   */
  function Remove(e: Enum, item: string): (r: Result<Enum, EnumError>)
    ensures r.Failure? <==> item !in e.entries
    ensures r.Failure? ==> r.error == MissingKey(item)
    ensures r.Success? ==>
      && r.value.prefix == e.prefix
      && r.value.entries.Keys == e.entries.Keys - {item}
      && (forall n | n in r.value.entries :: r.value.entries[n] == e.entries[n])
    ensures r.Success? ==> Size(r.value) == Size(e) - 1
    ensures r.Success? && Valid(e) ==> Valid(r.value)
  {
    if item !in e.entries then
      Failure(MissingKey(item))
    else
      Success(Enum(e.prefix, e.entries - {item}))
  }

  /**
   * A second `add` of a name just added fails exactly when the name's
   * prefixed value is truthy, i.e. unless both the name and the prefix are empty.
   */
  lemma AddTwice(e: Enum, item: string)
    requires Add(e, item).Success?
    ensures Add(Add(e, item).value, item).Failure? <==> SetPrefix(item, e.prefix) != ""
    ensures Add(Add(e, item).value, item).Failure? ==>
      Add(Add(e, item).value, item).error == DuplicateKey(item)
  {
    SetPrefixShape(item, e.prefix);
  }

  /** A second `remove` of a name just removed always fails with the missing-key error. */
  lemma RemoveTwice(e: Enum, item: string)
    requires Remove(e, item).Success?
    ensures Remove(Remove(e, item).value, item) == Failure(MissingKey(item))
  {
  }

  /** Adding a name the enumeration lacks and then removing it restores the original. */
  lemma AddThenRemove(e: Enum, item: string)
    requires item !in e.entries
    ensures Add(e, item).Success?
    ensures Remove(Add(e, item).value, item) == Success(e)
  {
    var added := Add(e, item).value;
    assert added.entries - {item} == e.entries;
  }

  /** Removing an entry of a well-formed enumeration and adding it back restores the original. */
  lemma RemoveThenAdd(e: Enum, item: string)
    requires Valid(e) && item in e.entries
    ensures Remove(e, item).Success?
    ensures Add(Remove(e, item).value, item) == Success(e)
  {
    var removed := Remove(e, item).value;
    assert removed.entries[item := SetPrefix(item, e.prefix)] == e.entries;
  }
}
