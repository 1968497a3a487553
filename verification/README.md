# OpenAPI bundler, structural validator and Zod message builder

This project models three pure pieces of the service repository:

- **Fragment bundler** (`src/spec/bundler.cjs`). `bundle()` takes the module fragments in discovery order.
  - It validates each fragment.
  - It folds the valid ones into a fixed base specification: tags are appended, and `paths`, `components.schemas` and `components.responses` are deep-merged with `mergeObjects`.
  - It records every module in `validModules` or `skippedModules`.
  - At the end it keeps only the first tag of every `name`.
- **Structural validator** (`src/spec/validate-openapi.cjs`). `validate` resets the finding lists and runs `checkObject`. That is a depth-first walk that carries a dot-joined path and applies eight checks at every object or array node.
- **Validation-message builder** (`source/lib/zod.ts`).
  - `customParse` turns the issue list into `FriendlyError`s.
  - `buildErrorMessage` builds the `"Field(s) … are missing or null"` sentence.

## How the model is built

- JSON is the datatype `JsonValues.Json`. Objects are association lists in insertion order.
- `JsonValues.Written` is the value as `JSON.stringify` writes it. At every depth, integer-like keys (`"0"`, `"1"`, …) come first in ascending order, followed by the other keys in insertion order. Array deduplication compares these written forms, so two objects that differ only in key order can count as duplicates.
- `target[key]` in the merge can find a method inherited from `Object.prototype`, such as `toString` or `valueOf`. `Merge.Read` reports that as `Method`. A method is truthy, so without `allowDuplicates` the merge never writes such a key.
- JavaScript truthiness, `typeof … === 'object'` and `for..in` / `Object.entries` iteration are spelled out as `Truthy`, `IsObjectType` and `Entries`.
- Reading a property that is not there gives `None`, which stands for `undefined`.
- `mergeObjects` mutates its target in place. Here it is a pure function that returns the merged target (`Merge.MergeObjects`). The per-key rule is `Merge.Combine`.
- The filter/`findIndex` idiom appears twice in the source: once for arrays, keyed by `JSON.stringify`, and once for tags, keyed by `name`. It is defined once, as `FirstOccurrence.KeepFirstBy`. `FirstOccurrence.FilterFirstOccurrences` is the literal double loop, and it is proved equal to that definition.
- The walk of `checkObject` is split in two:
  - `Validator.Visits` lists the nodes it reaches with their paths, in visit order.
  - `Validator.Collect` concatenates the findings of each node.
- A `Validator.Problem` records the node's path and which check fired. `Validator.Location` appends the check's suffix (`.items`, `.type`, `.required[i]`, …) to name the place the message reports.
- `Validator.Validate` renders the findings as the source's Spanish messages, prefixed by `[module] path: `.
- The bundle loop is `Bundler.Process`. It runs over the fragments and takes each fragment's validation verdict as an argument. `Bundler.Bundle` supplies the verdicts from `Validator.Validate`.
- Two `TypeError`s abort a run. Both are modelled as errors:
  - reading `.tags` of a `null` fragment. Such a fragment passes validation, because the walk ignores non-objects.
  - reading `.name` of a `null` tag.
- Zod's `safeParse` result is an input: `Parsed<T>` holds either the data or the issue list.

Three details of the code are easy to misread; the model follows the code:

- Check 1 fires when `items` is falsy (`!obj.items`), not only when the key is missing.
- A fragment's `tags` and `paths` are used when they are truthy, not merely present.
- A non-array `tags` value is appended as a single element, as `Array.prototype.concat` does.

## Model

| member | source | states |
|---|---|---|
| Merge.ConcatArrays | src/spec/bundler.cjs:65-72 | With duplicates allowed, array plus array is exactly `target ++ source`. Without duplicates, every kept value comes from `target ++ source` and is the first there with its `JSON.stringify` form. No two kept values share a form, every value's form is kept, and the kept values are in first-occurrence order. |
| Merge.IndexKeysSerialiseFirst | src/spec/bundler.cjs:69-71 | `{b: 1, "1": 2}` and `{"1": 2, b: 1}` are different objects with the same `JSON.stringify` text, so deduplication keeps only the first of them. |
| Merge.PlainArraysDedupByValue | src/spec/bundler.cjs:65-72 | When no object anywhere has an integer-like key, deduplication keeps exactly the values of either array, each once. |
| JsonValues.WrittenPlain | src/spec/bundler.cjs:70 | A value with no integer-like key at any depth is written exactly as it was built. |
| Merge.MergeObjectsAt | src/spec/bundler.cjs:61-86 | For every key, the merged value is the per-key rule applied once. The rule gets what `target[key]` read before the merge and the source's value. That read is an own value, an inherited `Object.prototype` method, or nothing. Keys the source lacks read as before. |
| Merge.MergeObjectsKeys | src/spec/bundler.cjs:61-86 | No key is removed or reordered: the target's keys stay a prefix. Afterwards the keys are exactly the target's keys plus the source's keys. Without duplicates, source keys that name inherited methods are not added. |
| Merge.InheritedNamesSkipped | src/spec/bundler.cjs:79-80 | Without duplicates, a key such as `toString` that the target does not own is never added, because `target[key]` is a truthy inherited function. |
| Merge.MergeObjectsUntouched | src/spec/bundler.cjs:62-63 | A key that the source does not have keeps its value in the target. |
| Merge.MergeFromDistinct | src/spec/bundler.cjs:61-86 | Merging never gives the target a repeated key. |
| Merge.FirstWriterWins | src/spec/bundler.cjs:77-82 | With duplicates disallowed, a truthy target value that is not merged with the source value survives the merge. |
| Merge.SourceFillsGap | src/spec/bundler.cjs:77-82 | A key that the target holds falsy takes the source's value. A key the target does not own takes it too, unless the key names an inherited method and duplicates are disallowed; then it stays absent. |
| Merge.ArraysAtKey | src/spec/bundler.cjs:64-72 | Two arrays under one key become their deduplicated concatenation, or the plain concatenation when duplicates are allowed. |
| Merge.ObjectsAtKey | src/spec/bundler.cjs:73-76 | Two objects under one key are merged recursively. |
| Merge.EarlierSourceWins | src/spec/bundler.cjs:61-86 | Merging is order-sensitive: after merging `first` and then `second`, the key keeps `first`'s truthy value unless the two are merged. A key naming an inherited method gets neither value. |
| FirstOccurrence.FilterFirstOccurrences | src/spec/bundler.cjs:69-71 | The `filter` with `index === findIndex(...)`, run as nested loops, keeps exactly the elements whose key does not occur earlier. |
| FirstOccurrence.KeepFirstByProperties | src/spec/bundler.cjs:69-71 | Each kept element is the first holder of its key. The kept keys are pairwise distinct and in increasing position order, and every key of the input is kept. |
| FirstOccurrence.KeptKeysDistinct | src/spec/bundler.cjs:240-242 | No two kept positions hold the same key. |
| FirstOccurrence.EveryKeyKept | src/spec/bundler.cjs:240-242 | The first holder of every key is kept. |
| JsonValues.ContainerIffTruthyObjectType | src/spec/validate-openapi.cjs:42 | A value is walked into exactly when it is truthy and of `typeof` object, i.e. an array or an object. |
| JsonValues.LookupUpdate | src/spec/bundler.cjs:79-80 | After `target[key] = x`, the key reads `x` and every other key reads as before. |
| JsonValues.KeysUpdate | src/spec/bundler.cjs:80 | An assignment keeps every existing key in place and appends a new key last. |
| Bundler.AssembleRead | src/spec/bundler.cjs:91-124 | Any tags, paths, schemas and responses put into the base shape keep the fixed envelope, and can be read back unchanged. |
| Bundler.BaseSpecShape | src/spec/bundler.cjs:91-124 | The base specification has the envelope: version `3.0.3`, bearer authentication of type `http`, and empty tags, paths, schemas and responses. |
| Bundler.MergeFragment | src/spec/bundler.cjs:218-236 | Merging one accepted fragment keeps `paths`, `schemas` and `responses` objects. Tags are only appended: a truthy `tags` array adds its elements, and any other truthy value is added as one element. Tags are unchanged when the fragment has none. A place the fragment gives nothing truthy for is unchanged. Otherwise it keeps its keys as a prefix and gains exactly the fragment's keys there, except inherited-method names. |
| Bundler.ProcessKeys | src/spec/bundler.cjs:193-237 | After the loop, the keys of `paths`, `schemas` and `responses` are exactly the starting keys plus those the accepted fragments contribute. |
| Bundler.BundleKeys | src/spec/bundler.cjs:177-245 | In a finished bundle, the keys of `paths`, `components.schemas` and `components.responses` are exactly those the accepted fragments contribute. |
| Bundler.ProcessBookkeeping | src/spec/bundler.cjs:193-237 | After the loop, `validModules` holds the names of the accepted modules and `skippedModules` the rejected ones with the validation reason, both in discovery order. |
| Bundler.PartitionSizes | src/spec/bundler.cjs:209-216 | Every module lands in exactly one of the two lists. |
| Bundler.SkippedChangeNothing | src/spec/bundler.cjs:209-213 | A module that fails validation does not change the combined parts. Folding only the accepted modules gives the same parts or the same fault. |
| Bundler.ProcessTags | src/spec/bundler.cjs:218-221 | The accumulated tags are the accepted fragments' tags concatenated in order. |
| Bundler.NullPasses | src/spec/validate-openapi.cjs:41-42 | A `null` fragment passes validation, because the walk ignores everything that is not a truthy object. |
| Bundler.ProcessFails | src/spec/bundler.cjs:216-219 | The loop aborts exactly when some fragment is `null`, and the fault names that fragment. |
| Bundler.NameKeysMatch | src/spec/bundler.cjs:241 | For two different tags, the comparison keys are equal exactly when `t.name === tag.name`. |
| Bundler.DedupTagsKept | src/spec/bundler.cjs:239-242 | The kept tags are whole input tags, taken at strictly increasing positions. |
| Bundler.DedupTagsDistinct | src/spec/bundler.cjs:239-242 | No two kept tags share a name. |
| Bundler.DedupTagsFirst | src/spec/bundler.cjs:239-242 | No tag before a kept tag has the same name, so each kept tag is the first of its name. |
| Bundler.DedupTagsCover | src/spec/bundler.cjs:239-242 | Every input tag is kept, or an earlier kept tag has its name. |
| Bundler.DedupTagsNull | src/spec/bundler.cjs:240-242 | Deduplication aborts exactly when some tag is `null`. |
| Bundler.BundleResult | src/spec/bundler.cjs:177-245 | A finished bundle keeps the envelope. `validModules` and `skippedModules` partition the modules in order. The tags are the accepted fragments' tags with only the first of every name kept. |
| Bundler.BundleIgnoresSkipped | src/spec/bundler.cjs:209-213 | The combined specification is the same as when only the accepted modules are bundled. |
| Bundler.BundleFails | src/spec/bundler.cjs:177-245 | A bundle aborts exactly when a fragment is `null`, or when an accepted fragment contributes a `null` tag. |
| Validator.Validate | src/spec/validate-openapi.cjs:28-36 | `isValid` holds exactly when there are no problems, which is exactly when the walk finds none; warnings play no part. Every finding of the walk gives one message, which starts with `[module] path: `. |
| Validator.ValidityIgnoresModuleName | src/spec/validate-openapi.cjs:17-36 | Each call starts from empty lists. The module name only labels messages, so validity and the counts do not depend on it. |
| Validator.OtherKinds | src/spec/validate-openapi.cjs:44-114 | A problem of the kinds raised by checks 1, 2, 4, 5 and 7 is reported at a node exactly when one of those checks fires with it. |
| Validator.NodeProblemsFire | src/spec/validate-openapi.cjs:44-114 | Each of checks 1, 2, 4, 5 and 7 reports its problem, at its path, exactly when its condition holds. |
| Validator.NodeTypeProblems | src/spec/validate-openapi.cjs:81-109 | An invalid-`type` problem is reported only where the schema-position heuristic applies, for a string `type` outside the seven valid names. It is always reported there. |
| Validator.TypePositionHeuristic | src/spec/validate-openapi.cjs:86-109 | `{type: "premium"}` gets no type finding away from `.schema` and `.schemas.` paths, and gets one under `.schemas.` outside an example. |
| Validator.BusinessTypeIsValid | src/spec/validate-openapi.cjs:86-109 | `{type: "premium"}` as a whole document is valid. |
| Validator.SchemaTypeIsInvalid | src/spec/validate-openapi.cjs:86-109 | The same node under `components.schemas.Foo` makes the document invalid. |
| Validator.NonStringEntries | src/spec/validate-openapi.cjs:130-134 | One problem per non-string entry of `required`, carrying the entry's index and the node's path, in index order, and no others. The message names the place as `path.required[i]`. |
| Validator.NodeRequiredProblems | src/spec/validate-openapi.cjs:116-137 | Problems about `required` appear only where check 8 applies. |
| Validator.RequiredProblemsExactly | src/spec/validate-openapi.cjs:116-137 | At a node, a problem about `required` is reported exactly when check 8 applies there and `required` is not an array, or is an array whose entry at the problem's index is not a string. It is reported at the node's path. |
| Validator.BooleanRequiredIsValid | src/spec/validate-openapi.cjs:116-126 | `{requestBody: {required: true}}` is valid. |
| Validator.StringRequiredIsOneProblem | src/spec/validate-openapi.cjs:116-128 | `{type: "object", properties: {a: {type: "string"}}, required: "a"}` has exactly one problem, at `root.required`. |
| Validator.WalkWarnings | src/spec/validate-openapi.cjs:64-67 | The walk warns about an empty `properties` at a path exactly when some node visited at that path has a truthy `properties` without keys. |
| Validator.ReachableWarnings | src/spec/validate-openapi.cjs:64-67 | For parsed JSON, a warning at a path is reported exactly when a truthy `properties` without keys sits in a container reachable by a key path whose dot-join is that path. |
| Validator.VisitsExactly | src/spec/validate-openapi.cjs:139-144 | For parsed JSON, a node is visited with a path exactly when it is a container reachable through truthy objects and arrays by keys whose dot-join extends the start to that path. |
| Validator.WalkNodeFirst | src/spec/validate-openapi.cjs:41-144 | A node's own findings come before those of its subtrees. |
| Validator.WalkEntryStep | src/spec/validate-openapi.cjs:139-144 | The subtrees follow in entry order. Each contributes the findings of its own walk under `path.key`, and a non-container entry contributes nothing. |
| Validator.DescendVisited | src/spec/validate-openapi.cjs:139-144 | Every container reachable by a key path is visited, with the dot-joined path. |
| Validator.VisitedPathsExtend | src/spec/validate-openapi.cjs:142 | Every visited path extends the starting path. |
| Validator.WalkCovers | src/spec/validate-openapi.cjs:139-144 | Every finding of a reachable node is a finding of the whole walk, whatever its ancestors report. |
| Validator.CollectProblems | src/spec/validate-openapi.cjs:41-144 | A problem is in the walk exactly when some visited node reports it. |
| Validator.CollectKeeps | src/spec/validate-openapi.cjs:139-144 | The walk adds no problems of its own: a property that holds for every visited node's problems holds for every problem it collects. |
| Validator.CollectConcat | src/spec/validate-openapi.cjs:139-144 | The findings of consecutive visits are contiguous, in visit order. |
| Validator.NoTypeProblemsUnderExample | src/spec/validate-openapi.cjs:87-103 | Below a path containing `.example`, no invalid-type problem is ever reported. |
| Validator.ProblemAnywhereInvalidates | src/spec/validate-openapi.cjs:139-144 | A problem at any reachable node makes the document invalid. |
| Validator.ArrayWithoutItemsInvalidates | src/spec/validate-openapi.cjs:45-47 | An array schema with falsy `items`, at any depth, reports its problem and makes the document invalid. |
| Validator.BareArrayIsInvalid | src/spec/validate-openapi.cjs:45-47 | `{type: "array"}` is invalid, whatever the module name. |
| ZodMessages.FailureErrors | source/lib/zod.ts:25-31 | A failed parse gives one error per issue, in issue order. Each error keeps the issue's code. Its message has the same length, with every upper-case letter replaced by its lower-case partner and every other character kept. It keeps `expected` and `received` exactly when they are truthy. Its field is `root` for an empty path; otherwise it splits back into the path's keys when no key contains a dot. |
| ZodMessages.FailureMessage | source/lib/zod.ts:25-69 | The failure message is empty exactly when no issue is an `invalid_type` with truthy `expected` and `received` of `"undefined"` or `"null"`. Otherwise it reads back as those issues' fields, in order, when none has a comma. |
| ZodMessages.FriendlyMissing | source/lib/zod.ts:46-52 | An issue's friendly error is selected for the message exactly when the issue itself reports a missing or null value. |
| ZodMessages.FieldRoundTrip | source/lib/zod.ts:26 | An empty path gives `root`. Otherwise splitting the field at `.` gives back the path's keys when no key contains a dot. |
| ZodMessages.FriendlyMessage | source/lib/zod.ts:30 | The friendly message has the issue message's length. Every upper-case letter becomes its lower-case partner, no upper-case letter is left, and every other character stays as it was. |
| Strings.ToLowerSpec | source/lib/zod.ts:30 | Lower-casing keeps the length, maps each upper-case letter to its lower-case letter, leaves every other character alone, and is idempotent. |
| ZodMessages.MissingOrNullSelected | source/lib/zod.ts:46-54 | An error is selected exactly when its code is `invalid_type`, `expected` is truthy, and `received` is `"undefined"` or `"null"`. |
| ZodMessages.MissingOrNullConcat | source/lib/zod.ts:46-54 | Selection goes error by error, keeping the errors' order. |
| ZodMessages.MessageShape | source/lib/zod.ts:59-69 | The message is empty exactly when no error qualifies. Otherwise it starts with `Field`, has `Fields` exactly when more than one error qualifies, and ends with ` are missing or null`. |
| ZodMessages.MessageRoundTrip | source/lib/zod.ts:59-69 | Reading the message back gives exactly the qualifying errors' fields, in error order, when no field contains a comma. |
| ZodMessages.MessageOnlyFromMissing | source/lib/zod.ts:46-56 | The message depends only on the qualifying errors: building it from them alone gives the same text. Selection is idempotent. |
| Decimal.ParseNatToString | src/spec/validate-openapi.cjs:132 | The index in a `required[idx]` path reads back as the index. |
| Decimal.NatToStringInjective | src/spec/validate-openapi.cjs:132 | Different indices give different paths. |
| Strings.SplitJoin | source/lib/zod.ts:26 | Splitting a `join('.')` gives the parts back when no part holds the separator. |

## Left out

- File discovery, reading, validation of module existence, writing and the CLI entry are I/O. This covers `discoverModules`, `readJsonFile`, `validateModules`, `writeOutput`, `run` and `validateOpenAPI`, as well as `process.exit` and the console output, including the summary. The fragments are an input sequence of parsed JSON.
- The read-error skip branch in `bundle` (src/spec/bundler.cjs:202-206) is not modelled. `readJsonFile` ends the process on a read or parse error, so that branch never runs.
- Aliasing from `target[key] = source[key]` is left out. Parsed fragments share no objects, so the shared references are never observed. The merge is a pure function.
- JavaScript lists integer-like object keys first in `for..in`. The merge and the walk iterate objects in insertion order. The serialised form `JsonValues.Written` does put them first.
- Merge.MergeObjectsAt: a target array that meets a non-array source object is returned unchanged. In JavaScript, index-named keys overwrite or add array elements. A `length` key is assigned as well: a non-number aborts the run with a `RangeError`, and a number resizes the array. Other names become properties that the serialised output does not show.
- Merge.MergeObjects: a source key `__proto__` is merged as an ordinary own key, which the code never creates. The bundle merges without duplicates. There `target.__proto__` reads `Object.prototype`, which is truthy and of `typeof` object. An object or array value is then merged into `Object.prototype` itself, so every later object inherits its properties. A primitive or `null` value changes nothing. Modelling this would need a global prototype shared by every value.
- Merge.MergeObjectsAt: the `__proto__` key reads as absent and takes the source's value, as described under `Merge.MergeObjects`.
- Merge.MergeObjectsKeys: counts a source key `__proto__` among the result's keys, though the code adds no such key.
- Merge.SourceFillsGap: for the key `__proto__` it gives the source's value, though the code writes none.
- Merge.EarlierSourceWins: for the key `__proto__` it gives `first`'s value, though the code writes none.
- Bundler.MergeFragment: counts a `__proto__` key given by the fragment, though the code adds none.
- Bundler.ProcessKeys: counts a `__proto__` key contributed by an accepted fragment, though the code adds none.
- Bundler.BundleKeys: counts a `__proto__` key contributed by an accepted fragment, though the code adds none.
- Merge.MergeObjects: a source that owns a key named `hasOwnProperty` makes `source.hasOwnProperty(key)` throw a `TypeError`, which aborts the run. The model merges such a source normally.
- Bundler.BundleFails: the `hasOwnProperty` fault above is not one of the aborts it characterises.
- Bundler.ProcessFails: the `hasOwnProperty` fault above is not one of the aborts it characterises.
- Merge.Read: only the eleven `Object.prototype` members are inherited names. Array targets are never read here, so `Array.prototype` names play no part.
- Numbers are integers (`JNum(int)`). Floating-point values play no part in any check or merge rule.
- Strings are sequences of `char`, not UTF-16 code units.
- Strings.ToLower: lower-cases ASCII letters only. `toLowerCase` also maps non-ASCII letters.
- Strings.ToLowerSpec: states lower-casing for ASCII letters only. Non-ASCII upper-case letters are left as they are.
- ZodMessages.FriendlyMessage: "no upper-case letter" means no ASCII upper-case letter.
- ZodMessages.FailureErrors: its lower-casing covers ASCII letters only, for the same reason.
- Zod's `safeParse` and the schemas are a foreign library. Their result is the input `Parsed<T>`.
- The `console.log` at source/lib/zod.ts:37 is output only.
- Zod's issue `message`, `expected` and `received` are carried as given. Message text comes from Zod.
- `validateModule` only prints the findings (src/spec/bundler.cjs:152-172). Its verdict is `Validator.Validate(...).isValid`, computed for each fragment before the fold. Validation is pure, so the order does not matter when no fragment has a `__proto__` key. A merged `__proto__` object changes what later fragments inherit, and so their verdicts, as described under `Merge.MergeObjects`.
- The Express application, logger setup, Swagger loading and the other scripts of the repository are outside this model.
