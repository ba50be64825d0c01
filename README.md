# i18n-generate: translation-tree reconciliation in Dafny

This project models the reconciliation core of `i18n-generate.js`. That is
the part that regenerates one locale file from an input (reference) file:

1. purge the existing locale tree of every leaf the input no longer defines;
2. list the input's leaf paths, de-duplicated, with empty paths dropped;
3. select the paths that still need a value: nothing there, an empty
   string, or a string that still starts with the key (or with `"." +` its
   last segment);
4. build a fresh tree holding the input's own values at the selected paths;
5. deep-merge that tree over the purged one;
6. sort the top level of the result.

No placeholder prefix is written: the `prefix` option is parsed but never
read, so a selected path receives the input file's own string.

Translation trees are JavaScript values built from strings and plain
objects (`JsValue.Value = Undefined | Str | Obj`). An object is an
association list in insertion order, which is the order `Object.keys` and
`for ... in` report. The dotted keys the program passes around (`"a.b.c"`)
are related to segment paths (`["a", "b", "c"]`) by `JsString.Split` and
`JsString.Join`. `JsValue.At` reads the value at a segment path.

The functions that mutate objects in place (`buildObject`, `mergeDeep`,
`_clearEmptyKeys`, `_purgeOutput`) are modelled on values: each returns the
updated tree. Their loops are methods with `while` loops, each proved equal
to a specification function:

- `getObjectNestedProperties` is modelled by `KeyPath.GetObjectNestedProperties` and specified by `Flatten`;
- `getObjectFromTranslations` is modelled by `KeyPath.GetObjectFromTranslations` and specified by `FromTranslations`;
- `mergeDeep` is modelled by `TreeOps.MergeInto` and `TreeOps.MergeDeep` and specified by `MergeOne` and `MergeAll`;
- `_clearEmptyKeys` is modelled by `TreeOps.ClearEmptyKeys` and specified by `ClearEmpty`;
- `_purgeOutput` is modelled by `TreeOps.PurgeOutput` and specified by `Purge`;
- `_generateFileContent` is modelled by `Generate.GenerateFileContent` and specified by `Reconcile`.

The properties are lemmas about those specification functions.

`isObject` is `JsValue.IsObject`. Arrays and `null` do not exist in the
model, so it holds exactly of objects; it has no contract of its own.

`JsValue.JsonTree` describes a tree as `JSON.parse` gives it here:

- strings and objects only;
- distinct keys;
- every key non-empty and free of `"."`.

A string key with a dot, or an empty key, would make the dotted-path
encoding ambiguous. The program relies on that encoding throughout.

Five source behaviours are worth knowing:

- **A key that changes from a non-empty string to a group keeps its string.**
  Suppose the existing file has a non-empty string at `a` and the input has
  an object there holding `a.b`. The purge keeps `a`, because the input
  defines it. `findInnerValue` then finds nothing at `a.b`, so the path is
  selected. `mergeDeep` cannot descend into the string, so `a.b` is never
  written. `Generate.TypeConflictKeepsString` proves this for every such
  pair, and `Generate.ReconcileKeepsUnchosen` proves that any non-empty
  string at a path that is never chosen keeps its value. The coverage theorem therefore requires `Generate.Compatible`: no
  non-empty existing string sits strictly above one of the input's string
  paths. An empty string is falsy, so the merge replaces it by `{}` and the
  path is written. Idempotence needs no such condition: a path left unwritten
  stays below the same string on the next run, which again writes nothing
  (`Generate.SelectedAgain`).
- **Selection is a prefix test.** A translated string that happens to start
  with its own key is regenerated. For a dotted key the test is against `"."`
  followed by the last segment, because `substring(lastIndexOf("."))` keeps
  the dot (`Generate.SelectedAt`).
- **Only the top level is sorted.** Nested levels keep the merge order.
- **Rebuilding through a string does nothing.** Sloppy-mode assignment on a
  string is a silent no-op, so `buildObject` through a truthy string leaves
  the string as it was (`KeyPath.SetProp`, `KeyPath.BuildObject`).
- **`_purgeOutput` blanks a leaf through `eval`.** The model writes that
  assignment structurally, as `TreeOps.SetAt` with `undefined`, and proves
  it equal to `buildObject` along the leaf's path (`TreeOps.SetAtIsBuildAt`).

## Model

| member | source | states |
|---|---|---|
| JsString.Split | i18n-generate.js:62 | `key.split(".")`: at least one piece, and no piece contains a dot |
| JsString.JoinSplit | i18n-generate.js:62-65 | joining the pieces of `split(".")` with dots gives back the key, so `keys.splice(1).join(".")` is the key after its first segment |
| JsString.SplitJoin | i18n-generate.js:48-50 | splitting a path joined from dot-free segments gives back the segments |
| JsString.LastSegmentMarker | i18n-generate.js:194 | for a path of two or more segments, `substring(lastIndexOf("."))` is `"."` followed by the last segment |
| JsString.SortStrings | i18n-generate.js:31-32 | `.sort()` returns a sorted permutation of its input |
| JsString.SortSortedIdentity | i18n-generate.js:31-32 | sorting an already sorted key list changes nothing |
| JsValue.AssignEmpty | i18n-generate.js:35 | `Object.assign({}, o)` copies an object's properties in order |
| JsValue.AssignSelf | i18n-generate.js:78 | `Object.assign(obj, obj)` leaves the object unchanged, so line 78 amounts to the `buildObject` call alone |
| JsValue.GetPut | i18n-generate.js:69 | after `obj[k] = x`, key `k` reads `x` and every other key reads as before |
| JsValue.GetRemove | i18n-generate.js:133-137 | after `delete obj[k]`, key `k` reads `undefined` and every other key reads as before |
| KeyPath.PrefixEach | i18n-generate.js:49-51 | the in-place rewrite gives `key + "." + innerKey` for every inner path, in order |
| KeyPath.GetObjectNestedProperties | i18n-generate.js:42-58 | the loop returns exactly `Flatten(obj)` |
| KeyPath.KeySection | i18n-generate.js:47-55 | one key's share of the paths equals `Section`: a nested object's own paths, each behind `key.`, or the key alone for a leaf |
| KeyPath.FlattenSound | i18n-generate.js:42-58 | every returned path splits into a valid segment path that reaches a string |
| KeyPath.FlattenComplete | i18n-generate.js:42-58 | every path that reaches a string is returned, joined with dots |
| KeyPath.FlattenSorted | i18n-generate.js:44-52 | paths come out strictly ascending segment by segment: keys in sorted order at every level, depth first, no duplicates |
| KeyPath.FlattenSkipsEmpty | i18n-generate.js:46-52 | no returned path passes through an empty object, at the top level or any depth below, so an empty branch contributes no path |
| KeyPath.FindInnerValueAt | i18n-generate.js:83-93 | looking up a dotted key equals walking its segments. A missing or falsy intermediate gives `undefined`, and a single segment gives `obj[key]` directly, so the lookup is total |
| KeyPath.SetProp | i18n-generate.js:63-69 | after assigning a property of an object, the result is an object, that property reads the new value and every other property reads as before; a string comes back unchanged |
| KeyPath.BuildObject | i18n-generate.js:60-72 | on an object, the result is an object whose keys are the old keys, or the old keys plus the path's first segment; anything else is returned unchanged |
| KeyPath.BuildObjectAt | i18n-generate.js:60-72 | `buildObject` with a dotted key equals the insert along the key's segments |
| KeyPath.BuildAtFind | i18n-generate.js:60-93 | after inserting at a path no string blocks, the path reads the inserted value |
| KeyPath.BuildObjectFind | i18n-generate.js:60-93 | round trip on dotted keys: `findInnerValue(buildObject(o, k, v), k) == v` |
| KeyPath.BuildAtFrame | i18n-generate.js:60-72 | every path that diverges from the inserted one reads as before |
| KeyPath.BuildAtPrefix | i18n-generate.js:64 | every proper prefix of the inserted path is an object afterwards, because missing or falsy intermediates become `{}` |
| KeyPath.BuildAtShape | i18n-generate.js:60-72 | the value sits at the path, objects lie above it, nothing lies below it, and diverging paths are unchanged |
| KeyPath.BuildAtJson | i18n-generate.js:60-72 | inserting a string at a valid path keeps a JSON tree a JSON tree, and keeps a tidy tree tidy |
| KeyPath.GetObjectFromTranslations | i18n-generate.js:74-81 | the loop equals `FromTranslations`, the fold of `buildObject` over the flattened paths |
| KeyPath.FromTranslationsFacts | i18n-generate.js:74-81 | each listed path holds the input's value. Every string in the result comes from a listed path, and every object lies above one |
| TreeOps.MergeInto | i18n-generate.js:113-122 | the `for ... in` loop equals `MergeOne`, the merge of one source |
| TreeOps.MergeDeep | i18n-generate.js:109-125 | the recursion equals `MergeAll`: no sources returns the target, otherwise the sources are applied one after another |
| TreeOps.MergeAllAppend | i18n-generate.js:109-125 | sources are applied left to right: merging `s1 + s2` is merging `s1`, then `s2` |
| TreeOps.MergeGet | i18n-generate.js:114-121 | a key of the source gets the source's non-object value, or a recursive merge into the old branch or into a fresh `{}`; any other key is unchanged |
| TreeOps.MergeKeepsKeys | i18n-generate.js:109-125 | every key of the target is still present after the merge |
| TreeOps.MergeCopy | i18n-generate.js:202-204 | merging a well-formed object into `{}` yields a copy of it |
| TreeOps.MergeAbsorbed | i18n-generate.js:109-125 | merging a source the target absorbs (contains, or blocks with a non-empty string where the source has an object) leaves the target unchanged |
| TreeOps.AbsorbsAt | i18n-generate.js:109-125 | a target absorbs a source when it holds every one of the source's strings and has an object or a non-empty string wherever the source has an object, except below a non-empty string of the target |
| TreeOps.MergeAtSource | i18n-generate.js:115-120 | a source string reaches the result when no truthy string of the target blocks its path |
| TreeOps.MergeAtTarget | i18n-generate.js:109-125 | a target path the source does not reach, or one holding a non-empty string, keeps its value when the source has no string on the way |
| TreeOps.MergeLeaves | i18n-generate.js:109-125 | every string in the result comes from the source or from the target at the same path |
| TreeOps.MergeKeepsBranch | i18n-generate.js:115-117 | a target object stays an object unless a source string replaces it |
| TreeOps.MergeJson | i18n-generate.js:109-125 | merging JSON trees gives a JSON tree, and merging tidy trees gives a tidy tree |
| TreeOps.ClearEmptyKeys | i18n-generate.js:127-141 | the sorted-keys loop equals `ClearEmpty` |
| TreeOps.ClearKey | i18n-generate.js:132-139 | one key's turn equals `ClearTurn`: clear a nested object and delete it when it ends up empty, delete an undefined value, keep a string |
| TreeOps.ClearEmptyGet | i18n-generate.js:130-139 | each key afterwards holds its old value cleaned recursively; `undefined` values and emptied objects are removed |
| TreeOps.ClearEmptyTidy | i18n-generate.js:127-141 | afterwards no value is `undefined` and no object below the root is empty |
| TreeOps.ClearEmptyAt | i18n-generate.js:127-141 | every string leaf keeps its value, and no string appears where there was none |
| TreeOps.ClearEmptyTidyIdentity | i18n-generate.js:127-141 | a tree that is already tidy is unchanged |
| TreeOps.ClearEmptyIdempotent | i18n-generate.js:127-141 | applying it twice equals applying it once |
| TreeOps.ClearEmptyJson | i18n-generate.js:127-141 | a tree whose only non-JSON values are `undefined` becomes a JSON tree |
| TreeOps.SetAtIsBuildAt | i18n-generate.js:149 | the `eval` assignment along a path of objects equals `buildObject` along that path |
| TreeOps.SetAtWellFormed | i18n-generate.js:149 | the `eval` assignment keeps keys distinct |
| TreeOps.PurgeOutput | i18n-generate.js:143-154 | the loop equals `Purge`: blank every listed leaf the input does not define, then clear |
| TreeOps.PurgeProp | i18n-generate.js:146-150 | one leaf's turn equals `PurgeTurn`: unset the path when the input does not define it, and the result stays a well-formed object |
| TreeOps.PurgeSound | i18n-generate.js:143-154 | every surviving string is defined in the input and keeps its original value |
| TreeOps.PurgeKeeps | i18n-generate.js:143-154 | a string whose path the input defines is never removed |
| TreeOps.PurgeJson | i18n-generate.js:143-154 | the purged tree is a JSON tree and is tidy |
| TreeOps.PurgeIdentity | i18n-generate.js:143-154 | a tidy tree whose strings are all defined in the input is unchanged |
| TreeOps.SortObjectKeys | i18n-generate.js:30-40 | the keys of the result are the sorted keys, a permutation of the original keys, strictly ascending |
| TreeOps.SortObjectGet | i18n-generate.js:30-40 | every key holds the same value as before |
| TreeOps.SortObjectAt | i18n-generate.js:30-40 | every non-empty path reads the same value, so nested levels are carried over untouched |
| TreeOps.SortObjectSortedIdentity | i18n-generate.js:30-40 | an object whose keys are already ascending is unchanged |
| TreeOps.SortObjectJson | i18n-generate.js:30-40 | sorting keeps a JSON tree a JSON tree, and keeps a tidy tree tidy |
| Generate.UniqFacts | i18n-generate.js:175 | `_.uniq` keeps exactly the same elements, with no duplicates |
| Generate.UniqOrder | i18n-generate.js:175 | `_.uniq` keeps the order of first occurrences: of two kept strings, the earlier one first occurs earlier in the list |
| Generate.CompactFacts | i18n-generate.js:174 | `_.compact` keeps exactly the non-empty strings |
| Generate.KeyByFacts | i18n-generate.js:184-186 | `_.keyBy` with the identity key gives distinct keys, exactly the listed strings, each mapped to itself |
| Generate.PickByFacts | i18n-generate.js:187-200 | `_.pickBy` keeps only properties of its argument, and exactly the keys that pass the selection test |
| Generate.SelectedAt | i18n-generate.js:187-200 | a path is selected iff its existing value is `undefined`, the empty string, or a string starting with the key (one segment) or with `"."` and the last segment (several) |
| Generate.FlattenFlat | i18n-generate.js:205-206 | flattening a map of strings, as `newTranslations` is, lists its keys in sorted order |
| Generate.NewTranslationsPaths | i18n-generate.js:173-200 | a path is chosen iff it is a leaf path of the input and passes the selection test |
| Generate.LocalFacts | i18n-generate.js:169-172 | the purged locale is a tidy JSON tree |
| Generate.ChosenIff | i18n-generate.js:173-206 | the paths handed to `getObjectFromTranslations` are exactly the selected leaf paths of the input |
| Generate.BuiltFacts | i18n-generate.js:205-208 | the built tree holds the input's value at every chosen path and nothing else |
| Generate.MergedFacts | i18n-generate.js:202-209 | merging into `{}` amounts to merging the built tree over the purged locale, and the result is a tidy JSON tree |
| Generate.ReconcileAt | i18n-generate.js:210 | the top-level sort changes no value at any non-empty path; only the root's own key order changes |
| Generate.GenerateFileContent | i18n-generate.js:168-211 | the pipeline (purge, list, select, build, merge, sort) equals `Reconcile` |
| Generate.ReconcileCoversSelected | i18n-generate.js:168-211 | every selected input leaf path holds the input file's value |
| Generate.ReconcileLands | i18n-generate.js:168-211 | a selected input leaf path with no non-empty string of the purged tree above it holds the input file's value |
| Generate.ReconcileKeepsShadow | i18n-generate.js:168-211 | a selected input leaf path below a non-empty string of the purged tree stays below a non-empty string of the result |
| Generate.ReconcileKeepsUnselected | i18n-generate.js:168-211 | every surviving existing string that is not selected keeps its existing value |
| Generate.ReconcileKeepsUnchosen | i18n-generate.js:168-211 | every surviving non-empty existing string whose path is not chosen keeps its existing value, including one that passes the selection test at a path the input turned into a group |
| Generate.ReconcileNoOrphans | i18n-generate.js:168-211 | every string in the result is at a path the input defines, and equals the existing or the input value there |
| Generate.ReconcileSorted | i18n-generate.js:202-210 | the top-level keys are strictly ascending, and the result is a tidy JSON tree |
| Generate.SecondPurge | i18n-generate.js:168-172 | purging the result against the same input changes nothing |
| Generate.SelectedAgain | i18n-generate.js:187-208 | a path selected again on the result already holds the input's value, or sits below a non-empty string of the result |
| Generate.SecondBuildAbsorbed | i18n-generate.js:202-209 | the tree built on a second run is absorbed by the result: contained in it, or stopped by its non-empty strings |
| Generate.ReconcileIdempotent | i18n-generate.js:168-211 | feeding the result back in as the existing tree gives the same tree, for every pair of JSON trees |
| Generate.TypeConflictKeepsString | i18n-generate.js:168-210 | an existing string at `a` survives an input that turns `a` into a group: `a.b` is selected, yet the result is the existing tree |

## Left out

- Command-line parsing (`minimist`, i18n-generate.js:156-166): configuration plumbing. `prefix` is never read, and `transformise` is taken as off.
- `transformise` (i18n-generate.js:6, 184-186): a foreign function whose code is not part of this model. With the flag off, `keyBy` uses the identity, which is what `Generate.KeyBy` does.
- File reading and the `{}` fallback of `getLocaleConfig` (i18n-generate.js:17-27, 171, 178-179, 207): the existing and input trees are parameters, and a missing locale file is the empty tree. The input is read three times in the source (lines 171, 178 and 207); the model takes all three reads to see the same tree.
- `_writeObjectToJson`, `_createFolderPath` and the glob traversal (i18n-generate.js:213-258): file-system and callback plumbing.
- Console output (i18n-generate.js:22, 201): logging has no effect on the trees.
- The `eval` at i18n-generate.js:149 is modelled as a structural assignment. A key that is not a JavaScript identifier would make the built code mean something else or throw; keys are only required to be dot-free and non-empty.
- Arrays, `null`, numbers and booleans: translation files here hold strings and objects only. Indexing into a string primitive reads `undefined` in the model; JavaScript would return a character for a numeric key and a method for an inherited name.
- Inherited property names (`constructor`, `__proto__`, ...): objects hold only their own properties.
- JavaScript's key order puts integer-like keys first, in numeric order; the model keeps plain insertion order.
- `.sort()` compares UTF-16 code units; the model compares characters, which agrees on the Basic Multilingual Plane.
- Identity and aliasing: `buildObject` and `mergeDeep` return the very object they were given. The model returns the updated value instead, so "the result is the same object" is not stated.
- Keys containing `"."` and the empty key: the dotted-path encoding cannot represent them, so the theorems require `JsValue.JsonTree`.
- Generate.ReconcileCoversSelected: requires `Generate.Compatible`, because without it the source leaves a selected path below a non-empty string unwritten (`Generate.TypeConflictKeepsString`, `Generate.ReconcileKeepsShadow`).
- Generate.ReconcileNoOrphans: states that the input defines the path (a string or an object there), not that the input holds a string there. An existing string survives the purge when the input has a group at that path.
- Generate.PickByFacts: states which properties are kept, not that they keep their order; the kept keys are sorted again before use (`Generate.FlattenFlat`).
- KeyPath.BuildObjectFind: the round trip is stated for paths no string blocks (`ClearPath`). Where a truthy string stands on the path, the source recurses into the string and `KeyPath.BuildObject` returns it unchanged.
