# Prefixed enumerations and their memo table

A Dafny model of the enumeration utility of `usm` (`packages/usm/src/utils/enum.ts`):

- **`Enum`** holds a fixed `prefix` and a set of named string constants. The value of name `n` is `prefix-n` when the prefix is non-empty and `n` otherwise (`setPrefix`). The constructor takes a list of names. `size` counts the entries. `add` throws a duplicate-key error and `remove` throws a missing-key error.
- **`prefixEnum`** looks up or creates entries in a process-wide two-level table `prefix -> base.prefix -> Enum`. An empty prefix returns the base as it is. Otherwise the slot is filled at most once, with an Enum built from `enumMap`'s names under the prefix `prefix-enumMap.prefix`, and the slot's content is returned.

Layout:
- `wrappers.dfy`: `Option` (for the omitted `base` argument) and `Result` (for an operation that throws).
- `enum.dfy`, module `Enums`: the `Enum` record `(prefix, entries: map<string, string>)`, the prefixing rule, the constructor, `Size`, `Add`, `Remove`, and the lemmas relating them. `Valid(e)` says that every entry carries the value the prefixing rule gives its name. The constructor establishes it and `Add` and `Remove` preserve it.
- `prefix_cache.dfy`, module `PrefixCache`: the table as `map<string, map<string, Enum>>`, and `PrefixEnum` as a pure transition from (table, request) to (result, new table). `Run` threads the table through a sequence of requests.
- `scenarios.dfy`, module `Scenarios`: concrete instances.

The object's dynamic properties become an explicit map. The non-enumerable `prefix` property is a separate field: it is never an entry and `Size` does not count it. `add` and `remove` return a new `Enum` instead of mutating the frozen instance. On an error the caller keeps the original value, as the source leaves the instance untouched when it throws. The table is an explicit input and output instead of module-level state. An absent `prefix` argument of `prefixEnum` is modelled as the empty string, since enum.ts:99 treats it like `""`. The constructor's `prefix` is always a string in the model; see "Left out" for an Enum built with an undefined prefix.

On these points the code's behaviour is easy to misread; the model follows the code:
- Repeated names at construction are not an error. A repeated name redefines its entry with the same value, so `Construct` has no precondition. Its entry set is the set of names given.
- The `add` guard tests truthiness. A second `add` of the same name therefore fails unless both the name and the prefix are empty. In that case the entry's value is `""`, which is falsy, so the guard lets the name through. `Enums.AddTwice` states both directions.
- The slot is keyed by `base.prefix`, but the Enum built for it copies the names and the prefix of `enumMap`. When `enumMap` has no prefix, the built prefix is `prefix-`, so its values read `prefix--name` (`PrefixCache.DerivedValues`).

## Model

| member | source | states |
|---|---|---|
| `Enums.SetPrefix` | packages/usm/src/utils/enum.ts:55-56 | the prefixing rule `prefix ? prefix-item : item`, computing the descriptor's value only; its characterisation is the one proved in `Enums.SetPrefixShape` |
| `Enums.SetPrefixShape` | packages/usm/src/utils/enum.ts:55-56 | the name is a suffix of its value; with a non-empty prefix the value starts with `prefix-` and is one separator longer than prefix plus name; with an empty prefix the value has the name's length; the value is empty (falsy) exactly when name and prefix both are |
| `Enums.SetPrefixInjective` | packages/usm/src/utils/enum.ts:55-56 | under one prefix two names have the same value if and only if they are the same name |
| `Enums.SetPrefixCompose` | packages/usm/src/utils/enum.ts:56 | re-prefixing a value by `outer` equals prefixing the name by `outer-inner` when both prefixes are non-empty |
| `Enums.FromNames` | packages/usm/src/utils/enum.ts:32-46 | one entry per given name, each valued by the prefixing rule, with the given prefix stored apart from the entries |
| `Enums.Construct` | packages/usm/src/utils/enum.ts:32-46 | after visiting the names in order the stored prefix is the argument, the entry names are exactly the names listed (repeats included once), and every value is the prefixed name |
| `Enums.ConstructIsFromNames` | packages/usm/src/utils/enum.ts:41-43 | the constructor's result depends only on the set of names, not their order or repeats |
| `Enums.DistinctCardinality` | packages/usm/src/utils/enum.ts:41-43 | a name list without repeats has as many distinct names as elements |
| `Enums.ConstructSize` | packages/usm/src/utils/enum.ts:66-68 | `size` of an Enum built from distinct names equals the number of names |
| `Enums.Size` | packages/usm/src/utils/enum.ts:66-68 | the number of own enumerable entries, `prefix` excluded; how it moves is stated by `Enums.ConstructSize`, `Enums.Add` and `Enums.Remove` |
| `Enums.Add` | packages/usm/src/utils/enum.ts:71-77 | fails with the duplicate-key error for this name exactly when the name is an entry with a non-empty value; otherwise the name is added with its prefixed value, prefix and all other entries are unchanged, and `size` grows by one for a new name |
| `Enums.AddValid` | packages/usm/src/utils/enum.ts:75-76 | `add` on a well-formed Enum keeps every entry valued by the prefixing rule under the instance's own prefix |
| `Enums.AddPresentUnchanged` | packages/usm/src/utils/enum.ts:72-76 | on a well-formed Enum, an `add` that the guard lets through for a present name leaves the Enum as it was |
| `Enums.Remove` | packages/usm/src/utils/enum.ts:80-85 | fails with the missing-key error for this name exactly when the name is not an own entry; otherwise exactly that entry is deleted, the others and the prefix are unchanged, `size` drops by one, and well-formedness is kept |
| `Enums.AddTwice` | packages/usm/src/utils/enum.ts:72-74 | after a successful `add`, a second `add` of the same name fails, with the duplicate-key error, if and only if the name's prefixed value is non-empty |
| `Enums.RemoveTwice` | packages/usm/src/utils/enum.ts:81-82 | after a successful `remove`, removing the same name again fails with the missing-key error |
| `Enums.AddThenRemove` | packages/usm/src/utils/enum.ts:71-85 | adding a name the Enum lacks succeeds, and removing it afterwards gives back the original Enum |
| `Enums.RemoveThenAdd` | packages/usm/src/utils/enum.ts:71-85 | removing an entry of a well-formed Enum and adding it back gives back the original Enum |
| `PrefixCache.BaseOf` | packages/usm/src/utils/enum.ts:98 | the `base = enumMap` default of the destructured argument, as a definition; the slot key it supplies is stated in `PrefixCache.PrefixEnum` |
| `PrefixCache.Derive` | packages/usm/src/utils/enum.ts:105 | the Enum built for an empty slot has `enumMap`'s names and the prefix `prefix-enumMap.prefix`, and is well formed |
| `PrefixCache.PrefixEnum` | packages/usm/src/utils/enum.ts:96-108 | an empty prefix returns the base and leaves the table alone; otherwise the result is what the table holds at `(prefix, base.prefix)` after the call; a filled slot is returned as it is, with the table unchanged; an empty slot receives the derived Enum and no other slot changes; no filled slot is ever overwritten |
| `PrefixCache.PrefixEnumIdempotent` | packages/usm/src/utils/enum.ts:104-107 | a second request with the same prefix and base prefix returns the first result and leaves the table unchanged, whatever its `enumMap` |
| `PrefixCache.DerivedValues` | packages/usm/src/utils/enum.ts:105 | each value of a derived Enum is the base value re-prefixed by the requested prefix when `enumMap` has a prefix, and `prefix--name` when it has none |
| `PrefixCache.PrefixEnumWellFormed` | packages/usm/src/utils/enum.ts:100-107 | the table stays well formed: every Enum it holds is well formed and its prefix starts with its bucket's prefix and `-` |
| `PrefixCache.RunWellFormed` | packages/usm/src/utils/enum.ts:96-108 | the table stays well formed through any sequence of calls that starts from a well-formed table, the empty module-level table included |
| `PrefixCache.Run` | packages/usm/src/utils/enum.ts:96-108 | a sequence of calls yields one result per request, and the table only grows |
| `PrefixCache.RunRespectsSlot` | packages/usm/src/utils/enum.ts:104-107 | once a slot is filled, every later request with a non-empty prefix for that slot returns its Enum |
| `PrefixCache.RunMemoizes` | packages/usm/src/utils/enum.ts:104-107 | in any sequence of calls, two requests with the same non-empty prefix and base prefix return the same Enum |
| `Scenarios.ConstructWithPrefix` | packages/usm/src/utils/enum.ts:41-43 | names `a`, `b` under `ns` give `{a: ns-a, b: ns-b}` and size 2 |
| `Scenarios.ConstructWithoutPrefix` | packages/usm/src/utils/enum.ts:41-43 | name `x` under the empty prefix gives `{x: x}` |
| `Scenarios.PrefixEnumOuter` | packages/usm/src/utils/enum.ts:96-108 | deriving `outer` from a base `{a}` with prefix `ns` gives prefix `outer-ns` and `{a: outer-ns-a}`, and asking again returns the same Enum |

## Left out

- The freeze collaborator (`./freeze`, not part of this model), the `Proxy && Reflect` probe and `Object.freeze` (enum.ts:1, 47-51). The model does not ask whether a frozen object would accept `defineProperty` or `delete`. `add` and `remove` are modelled by their effect on the entries.
- Property-descriptor flags (enumerable, writable, configurable). `setPrefix` is modelled by the value it computes. The only consequence kept is that `prefix` is not an entry and is not counted by `size`.
- Enums.Add: only own entries are considered by the guard. In the source, a name that resolves through the prototype chain to a truthy value throws: `add`, `remove`, `constructor`, `toString`, `__proto__` and the other inherited members. `prefix` throws the duplicate-key error when the prefix is non-empty. With an empty prefix it passes the guard, and then `defineProperty` throws a TypeError because the constructor made `prefix` non-configurable. The model returns `Success` with a new entry. `size` throws only when the Enum has entries. On an empty Enum the getter returns `0`, which is falsy, so the source defines an own `size` entry. That entry then hides the getter (see the `Enums.Size` line). The model treats all these names as ordinary entry names.
- Enums.Remove: the own non-enumerable `prefix` property passes the source's `hasOwnProperty` guard. The strict-mode `delete` of that non-configurable property then throws a TypeError. The model has no entry for it and reports the missing-key error.
- Enums.Size: an entry named `size`, `add` or `remove` hides the class member of that name. It can come from the constructor or from `add` on an empty Enum. After `new Enum(["size"], "p")`, the source's `size` reads the string `p-size`, not a count. After an entry named `add` or `remove`, that method can no longer be called. The model's `Size`, `Add` and `Remove` ignore this and keep their meaning for every entry name.
- Enums.Construct: a name equal to `prefix` would overwrite the prefix descriptor in the source. The model keeps the prefix separate. A name equal to `size`, `add` or `remove` becomes an entry in both the source and the model. In the source that entry hides the class member (see the `Enums.Size` line); the model's operations are unaffected.
- Enums.Construct: a name `__proto__` is not modelled. In the source, assigning it into the descriptor object calls the prototype setter instead of creating a key, so the constructed Enum gets no such entry and `size` does not count it. The model gives it an entry like any other name.
- Enums.Construct: an Enum built with an undefined `prefix` is not modelled. The source stores `undefined`, values each name as the bare name, and a later `prefixEnum` keys its slot as `"undefined"` and derives the prefix `outer-undefined`. The model's prefix is always a string.
- PrefixCache.PrefixEnum: keys that name members of `Object.prototype` (`constructor`, `toString`, `__proto__`, …) are not modelled, at either level of the table. The requested prefix is one such key. So is the slot key `base.prefix`. With a base prefix of `constructor` or `toString`, the source finds the member inherited by the fresh `{}` bucket, so nothing is stored, and it returns `Object` or `Object.prototype.toString` instead of an Enum. The model's table has only own keys and returns `Derive(enumMap, prefix)`.
- The exact error-message text. Errors carry their kind and the offending name.
- The order of `keys(enumMap)`, and object identity beyond slot stability. The result is the stored slot, and stored slots never change.
