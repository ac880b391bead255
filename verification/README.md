# Tool parameter schema conversion, modelled in Dafny

The repository turns the JSON Schema of an object into the flat parameter map a
tool-calling API expects, and turns such a flat map back into a nested object:

- `flattenObject` walks `properties` depth first in insertion order. Every
  property that is not an object becomes one parameter. Its key is the names
  of the property and its ancestors joined with the delimiter `"__"`, where
  `[prefix, key].filter(Boolean)` drops empty parts. Its entry holds the
  description, the Python name of its type and whether its immediate parent
  lists it as `required`. An object property is walked into and spread into
  the result, so a later write to the same key wins. A property without `type`
  throws.
- `unflattenObject` splits each key on the delimiter. It walks the result down
  through every name but the last, creating an empty object where nothing is
  stored yet, and assigns the value to the last name.
- `convertToPythonType` renames `string`, `number`, `object` and `array` to
  `str`, `float`, `Dict` and `List`. Every other name passes through as it is.
- `convert` and `unconvert` apply the two walks from the empty prefix with the
  delimiter `"__"`.

The model has these modules:

- `Wrappers` (`wrappers.dfy`): `Option` and `Result`.
- `Strings` (`strings.dfy`): `indexOf`, `split` on a non-empty separator,
  `join`, and `[prefix, key].filter(Boolean).join(d)`.
- `Dict` (`dict.dfy`): a JavaScript object as a sequence of key/value pairs in
  insertion order. `Put` is assignment: an existing key keeps its place and a
  new key goes last. `Spread` is `{...o, ...p}`.
- `PythonTypes` (`python_types.dfy`): the type-name table.
- `Flattening` (`flatten.dfy`): the schema, the walk, and its reference reading.
  - `Flatten` is the walk as a function. `FlattenObject` is the walk as a
    recursive method with the source's loop, proved equal to `Flatten`.
  - `Leaves` lists the non-object properties in walk order. It is the
    independent reference the walk is proved against: the flat map holds, for
    each key, the entry of the last leaf whose path joins to that key.
- `Unflattening` (`unflatten.dfy`): the nested result and the walk.
  - `Insert` stores one value, and `Unflatten` folds it over the pairs.
  - `UnflattenObject` is the method with both of the source's loops. The inner
    loop keeps the objects it walked through, so the assignment through
    `current` is rebuilt into `result`.
  - A successful store puts the value under its path and leaves every path
    apart from it unchanged. When no split key is a prefix of another, every
    value is found under its key's split, and nothing else is stored.
- `Converter` (`converter.dfy`): `convert`, `unconvert` and the round trip.
  - The round trip is proved when every property name is non-empty, distinct
    from its siblings and free of `"__"`, and the name of every object property
    also does not end in `_`. Then unconverting a converted schema puts every
    leaf's entry under the path of its property names, and stores nothing else.
  - A leaf name may end in `_`: `{from_: string}` meets the condition, because
    the last name of a key only has to be free of `"__"`.
  - Without the condition, keys collide: a top-level property `a__b` and a
    property `b` inside `a` both get the key `a__b`.
    A trailing `_` on an object name breaks the split: the property `x` inside
    `a_` gets the key `a___x`, which splits into `a` and `_x`.

The model follows `index.ts`, which has none of the following:

- a reverse type table or an error for an unknown type name (`boolean`, for
  one, passes through unchanged);
- a rebuilt schema: `unflattenObject` returns a nested object of the stored
  values, without `type`, `properties` or `required`;
- a tool-definition envelope or a recursion-depth guard;
- a check for colliding keys: when two leaves produce the same key, the last
  write silently wins.

## Model

| member | source | states |
|---|---|---|
| Converter.NestDelimiter | index.ts:5 | The constant `"__"`; `SeparableDoubleUnderscore` states which names it can join and split back. |
| Strings.IndexOf | index.ts:43 | The result is a position where the separator occurs, and no earlier position holds it; None means it occurs nowhere. |
| Strings.Split | index.ts:43 | `key.split(d)` for a non-empty `d`; its contract states only that there is at least one piece. Its meaning is `JoinSplit`, `SplitPiecesSeparatorFree`, `SplitPiecesSeparable` and `SplitJoin`. |
| Strings.Join | index.ts:20 | `join(d)`; no contract of its own. Its meaning is `JoinSplit` and `SplitJoin`. |
| Strings.JoinSplit | index.ts:43 | Joining the pieces of `key.split(d)` with `d` gives back `key`, for every key. |
| Strings.SplitPiecesSeparatorFree | index.ts:43 | No piece of `key.split(d)` contains `d`. |
| Strings.SplitPiecesSeparable | index.ts:43 | Every piece of `key.split(d)` but the last is separable: a piece followed by `d` has its first occurrence of `d` at its end, as the leftmost split requires. |
| Strings.SplitJoin | index.ts:43 | Splitting a join gives back exactly its names, as the path `unflattenObject` walks, when every name but the last is separable and the last holds no separator: the converse of `SplitPiecesSeparable` and `SplitPiecesSeparatorFree`. |
| Strings.SeparableDoubleUnderscore | index.ts:5 | For the delimiter `"__"`, a name is recovered by the split exactly when it contains no `"__"` and does not end in `_`. |
| Strings.DropEmpty | index.ts:20 | `filter(Boolean)` keeps exactly the non-empty names: a name is in the result iff it is in the input and not empty, no result name is empty, and names that are all non-empty come through unchanged. Its count and order are `DropEmptyCounts` and `DropEmptyConcat`. |
| Strings.DropEmptyCounts | index.ts:20 | Each non-empty name occurs in the result as often as in the input, and the empty name not at all. |
| Strings.DropEmptyConcat | index.ts:20 | Filtering a concatenation is concatenating the filtered parts, so the kept names stay in input order. |
| Strings.JoinPath | index.ts:20 | The key is `key` under an empty prefix, `prefix` for an empty key, and `prefix + d + key` otherwise. |
| Strings.JoinPathExtends | index.ts:20-27 | Extending the prefix by one name equals joining the non-empty names of the whole path: the recursive prefix is the path of names. |
| Dict.Find | index.ts:29 | The reported position holds the key, and no earlier position does; None means no position holds it. |
| Dict.Get | index.ts:29 | A lookup succeeds exactly for the object's own keys and returns that key's value. |
| Dict.Put | index.ts:29 | `result[path] = …`; no contract of its own. Its meaning is `PutSpec`. |
| Dict.Spread | index.ts:27 | `{...result, ...sub}`; no contract of its own. Its meaning is `SpreadSpec`. |
| Dict.PutSpec | index.ts:29-33 | After `result[path] = …`, `path` holds the new entry, every other key holds what it held, the key list grows only by a new key, and keys stay unique. |
| Dict.SpreadSpec | index.ts:27 | After `{...result, ...sub}`, each key holds its last write in `sub`, or its old value when `sub` lacks it, and keys stay unique. |
| Dict.LastValueOfUnique | index.ts:27 | In an object without repeated keys, the last pair with a key is the value a lookup finds. |
| Dict.LastValueConcat | index.ts:27 | The last write to a key in `a + b` is the one in `b`, or the one in `a` when `b` does not write the key. |
| PythonTypes.ConvertToPythonType | index.ts:69-81 | A name changes exactly when it is string, number, object or array, and then becomes one of str, float, Dict, List. |
| PythonTypes.ConvertIdempotent | index.ts:69-81 | Converting a converted name changes nothing. |
| PythonTypes.ConvertNotInjective | index.ts:69-81 | Two different schema names map to the same Python name, so the table cannot be inverted. |
| Flattening.Flatten | index.ts:17-37 | `flattenObject` as a function; no contract of its own. Its meaning is `FlattenSucceedsIffWellFormed`, `FlattenIsLastWrite` and `FlattenHasUniqueKeys`. |
| Flattening.FlattenFirst | index.ts:19-35 | The loop after its first `k` turns; no contract of its own. Its meaning is `FailureIsFinal` and the loop invariant of `FlattenObject`. |
| Flattening.Visit | index.ts:20-34 | One turn of the loop; no contract of its own. Its meaning is `VisitProperty`, `VisitSucceeds` and `VisitIsLastWrite`. |
| Flattening.Leaves | index.ts:19-33 | The non-object properties in walk order, an independent reading of the walk; no contract of its own. `FlattenIsLastWrite` ties the walk to it. |
| Flattening.IsRequired | index.ts:32 | `schema.required?.includes(key) ?? false`; no contract of its own. The rule is its body: only the immediate parent's `required` list counts, and an absent list means false. `FlattenEntriesComeFromLeaves` relies on it. |
| Flattening.LeafEntry | index.ts:29-33 | The entry a non-object property becomes; no contract of its own. Its body is the rule: the property's description, the table's name for its type, and `IsRequired` of the immediate parent. `FlattenEntriesComeFromLeaves` relies on it. |
| Flattening.EntryOf | index.ts:29-33 | The key and entry one leaf stands for; no contract of its own. `FlattenEntriesComeFromLeaves` states each part. |
| Flattening.FlattenObject | index.ts:17-37 | The method, with the source's loop over the properties, returns exactly the walk `Flatten`: the map or the error thrown. |
| Flattening.VisitProperty | index.ts:20-34 | One turn of the loop throws MissingType without a type, spreads the walk of an object property, and assigns the entry of any other property. |
| Flattening.FailureIsFinal | index.ts:22-24 | Once a property throws, the walk's outcome is that error, whatever follows. |
| Flattening.FlattenSucceedsIffWellFormed | index.ts:19-27 | The walk succeeds exactly when every property it reaches has a type and every object it enters has properties. |
| Flattening.FailureIsMissingType | index.ts:19-27 | When every object the walk can enter has `properties`, a walk that throws throws MissingType. |
| Flattening.FlattenHasUniqueKeys | index.ts:17-37 | The flat map never holds a key twice. |
| Flattening.FlattenIsLastWrite | index.ts:17-37 | For a well-formed schema, each key of the map holds the entry of the last leaf in walk order whose path joins to it, and no other key is present. |
| Flattening.LeavesAreNonObject | index.ts:26-33 | No leaf is object-typed, and each leaf lies below the ancestors it was collected under. |
| Flattening.FlattenEntriesComeFromLeaves | index.ts:29-33 | Every entry comes from a non-object property. Its key is that property's joined path, its type is the table's name for the property's type, its description is the property's, and it is required exactly when the immediate parent lists it. |
| Flattening.FlatSchemaKeysAreNames | index.ts:17-37 | For a schema of typed, non-object properties with distinct names, the map is one entry per property, in property order, keyed by the property name. |
| Unflattening.Insert | index.ts:44-52 | Storing one value under a path; no contract of its own. Its meaning is `InsertDefined` and `InsertLookup`. |
| Unflattening.Unflatten | index.ts:42-53 | The outer loop as a fold; no contract of its own. Its meaning is `UnflattenFindsEvery`, `InsertLookup` and `NoneIsFinal`. |
| Unflattening.InsertDefined | index.ts:44-52 | Storing a value under a path succeeds exactly when no stored value lies on a proper prefix of the path. |
| Unflattening.InsertLookup | index.ts:44-52 | After a store, the path holds the value. Paths through it find nothing, paths on the way to it find an object, and paths apart from it find what they found before. |
| Unflattening.NoneIsFinal | index.ts:42-53 | Once a pair cannot be stored, the whole result is outside the model. |
| Unflattening.UnflattenObject | index.ts:39-55 | The method with both loops returns exactly the fold `Unflatten`. |
| Unflattening.IncomparableNoPrefix | index.ts:43-51 | Two paths part at some name exactly when neither is a prefix of the other. |
| Unflattening.StoreAllFindsEvery | index.ts:42-53 | Storing values under pairwise apart paths succeeds, finds every value under its path, and stores nothing elsewhere. |
| Unflattening.UnflattenFindsEvery | index.ts:39-55 | When no split key is a prefix of another, unflattening succeeds, every value is found under the split of its key, and every stored value sits at some key's split. |
| Converter.Convert | index.ts:9-11 | `convert` is the walk from the empty prefix with `"__"`. It succeeds exactly on well-formed schemas, and then its keys are unique. |
| Converter.Unconvert | index.ts:13-15 | `unconvert` is the fold with `"__"`. |
| Converter.LeafKeySplits | index.ts:20 | The key of a leaf whose names are non-empty and free of the delimiter, all but its own also separable, splits back into the leaf's path of names. |
| Converter.LeafPaths | index.ts:19-27 | With sibling-distinct, non-empty, delimiter-free names and separable object names, every leaf lies below its ancestors with such names only, and no leaf path is a prefix of another. |
| Converter.RoundTrip | index.ts:9-15 | For a well-formed schema whose names are sibling-distinct, non-empty and free of `"__"`, with no object name ending in `_`, `unconvert(convert(schema))` succeeds, holds each leaf's entry under the leaf's path of property names, and holds no other value. |
| Converter.DelimiterInNameCollides | index.ts:20 | A top-level name `a__b` and a nested `a`/`b` produce the same key `a__b`, which always splits into `a` and `b`. |
| Converter.LeafNameMayEndInUnderscore | index.ts:20 | `from_` is not separable, yet the schema `{from_: string}` is well formed and meets the condition of `RoundTrip`. |
| Converter.PrefixKeysByOrder | index.ts:42-52 | `[("a__b", 1), ("a", 2)]` unflattens to `{a: 2}`, the later assignment overwriting the nested object; `[("a", 2), ("a__b", 1)]` runs into the stored value and gives None. |
| Converter.TrailingUnderscoreMisSplits | index.ts:43 | The leaf `x` inside an object named `a_` gets the key `a___x`, which splits into `a` and `_x`, a path the schema does not have. |
| Converter.UnflattenLeaves | index.ts:39-55 | Unflattening a map of last writes of prefix-free leaves puts each leaf's entry under its path. |
| Converter.UnflattenOnlyLeaves | index.ts:39-55 | Every value stored when unflattening such a map sits at the path of a leaf. |
| Converter.FlatSplitsApart | index.ts:43 | Different keys of such a map split into paths neither of which is a prefix of the other. |

## Left out

- Unflattening.Insert: when the walk reaches a stored value, the source goes on writing into that value, or throws for a primitive one. The model returns None and leaves that outcome outside the model.
- Unflattening.UnflattenObject: the result above, and the mutation of a stored value, are not modelled.
- Unflattening.UnflattenFindsEvery: states the result only when no split key is a prefix of another. When a key's split is a proper prefix of a later key's split, the walk of the later key reaches a stored value and the model returns None, as for `Insert`. In the other order, a later key whose split is a proper prefix of an earlier one's overwrites the object built there, as the final assignment of the source does; `InsertLookup` states what every path then finds, and `Converter.PrefixKeysByOrder` shows both orders.
- The nested result is a Dafny `map`, so the insertion order of its keys is not modelled. The flat map keeps its order.
- The assignment through the `current` alias is modelled by rebuilding the objects passed on the way down. No heap and no sharing are modelled.
- `Object.entries` puts integer-like keys first. The model keeps insertion order for every key.
- Keys such as `__proto__` with special meaning to JavaScript objects are not modelled.
- Flattening.Flatten: a `type` that is present but `undefined` passes the source's check. Both that case and an absent `type` are modelled as MissingType.
- A stored value that is itself `undefined` is treated as absent by the inner loop of `unflattenObject`. Model values are never `undefined`.
- `required` that is not an array, and `Object.entries` on anything but a plain object, are not modelled. An absent `properties` is modelled as the TypeError it raises (MissingProperties).
- Stack exhaustion on deeply nested schemas is not modelled.
- The `cohere-ai` and `zod-to-json-schema` imports only supply type declarations. They are not modelled.
- tests.test.ts is not part of this model. It expects a different delimiter, a three-argument `convert` and a rebuilt schema, none of which `index.ts` has.
