# Index-generation switcher (es6/switcher.go) in Dafny

This project models the blue/green reindex switcher of the `index` Go package for
Elasticsearch 6. A switcher is created for an alias. It derives a fresh physical index
name (a *generation*) from the alias and the current UTC time and asks the backend to
create that index. Documents are then written to it. `Switch(retention)` lists the
catalog and picks the alias's other generations (`^<alias>_[0-9]+$`, minus its own
index). It sorts them in ascending string order and sends one atomic alias-update request: `add` the
alias to the new index, then for each old generation either `remove` the alias (keep
the index) or `remove_index` (delete it), according to the retention count. Ascending string order is oldest first when every
matching name has the 14-digit form this scheme produces with a four-digit year
(`SortedGenerationsOldestFirst`). The pattern `[0-9]+` also accepts other digit counts,
and such names are ordered by string order, not by time (`OtherWidthNameSortsLast`).

Modules:

- `Wrappers`: `Option`, `Result`, `Outcome`, for backend replies and error returns.
- `Strings`: the digit class `[0-9]` and Go's `<` on strings (`Less`), with its order lemmas.
- `Sorting`: sortedness, a reference insertion sort `Sort`, uniqueness of sorted
  permutations, and `SortInPlace`, an in-place array sort standing for `sort.Strings`.
- `TimeFormat`: broken-down UTC times, `Format` for Go's layout `20060102150405`
  (written like Go's `appendInt`: a sign, then digits zero-padded to the field width),
  and the proof that for four-digit years string order is time order.
- `Retention`: the `Action` datatype, the per-index retention rule (`Plan`), the full
  request (`Cutover`) and what it binds, unbinds and deletes.
- `Switcher`: generation naming, the catalog filter, the `Switcher` class (`Name`,
  `OldIndices`, `Switch`) and `NewSwitcher`.

Backend calls are inputs and outputs. `NewSwitcher` returns the create-index request it
sends and takes the backend's reply as an `Outcome`. `Switch` takes the catalog listing
as a `Result` (failure stands for a transport error, an error status or an undecodable
body). It takes the reply to the alias update as an `Outcome`. It returns the request it
sends (`None` when none is sent) and its error result. The clock reading is a
`DateTime` parameter.

## Model

| member | source | states |
|---|---|---|
| `Switcher.NewSwitcher` | es6/switcher.go:23-42 | the create request names `alias_<Format(now)>` with the given settings; a failed creation returns that error and no switcher; a confirmed one returns a fresh switcher holding the alias, that index and its creation time |
| `Switcher.Switcher.constructor` | es6/switcher.go:37-41 | the switcher keeps the alias and the index derived from its creation time |
| `Switcher.GenerationName` | es6/switcher.go:24 | the index name: `alias + "_" + Format(t)` |
| `Switcher.IsGenerationOf` | es6/switcher.go:118 | the pattern `^<alias>_[0-9]+$` with the alias read literally: the alias, `_`, then one or more ASCII digits up to the end |
| `Switcher.PatternAsWritten` | es6/switcher.go:118 | the pattern as compiled with the alias unescaped, for aliases whose only metacharacter is `.`: each `.` matches any character but a newline |
| `Switcher.Matching` | es6/switcher.go:120-125 | the catalog names matching the pattern and different from the own index, in catalog order, duplicates kept |
| `Switcher.OldGenerations` | es6/switcher.go:118-127 | `Sort` of `Matching`: the old generations in ascending string order |
| `Switcher.SortedGenerationsOldestFirst` | es6/switcher.go:24 | over sorted names all derived by the naming scheme from valid four-digit-year times, no name is followed by an older one |
| `Switcher.OtherWidthNameSortsLast` | es6/switcher.go:118-127 | `a_9` also matches and sorts after `a_20200101000000`, so with retention 1 the 14-digit generation is deleted and `a_9` kept |
| `Switcher.Switcher.Name` | es6/switcher.go:44-46 | the name is the generation name of the creation time; with a four-digit year it is the alias, `_` and 14 digits, and it matches the switcher's own old-generation pattern |
| `Switcher.Switcher.OldIndices` | es6/switcher.go:99-130 | a failed catalog read returns its error; otherwise the result is the filtered names in ascending order (`OldGenerations`), computed by the filter loop and an in-place sort |
| `Switcher.Switcher.Switch` | es6/switcher.go:48-97 | no request is sent when the catalog read fails, and that error is returned; otherwise the one request sent is `Cutover` of the sorted old generations, and the result is the backend's reply |
| `Switcher.MatchingCounts` | es6/switcher.go:118-125 | the filter keeps each name matching `^<alias>_[0-9]+$` other than the own index exactly as often as the catalog lists it, and no other name |
| `Switcher.OldGenerationsSpec` | es6/switcher.go:118-127 | the old generations are sorted, a permutation of the filtered catalog names, never include the own index, and each is a catalog name of the alias's pattern |
| `Switcher.GenerationPatternExact` | es6/switcher.go:118 | the pattern accepts exactly the alias, `_` and one or more ASCII digits |
| `Switcher.GenerationNameShape` | es6/switcher.go:24 | with a four-digit year a generation name has length alias + 15 and matches the pattern |
| `Switcher.OwnIndexNeedsExclusion` | es6/switcher.go:118-122 | the own index matches the pattern itself and is still absent from the old generations: the explicit inequality excludes it |
| `Switcher.GenerationNameOrder` | es6/switcher.go:24 | for four-digit years, generation names of one alias sort exactly as their creation times; different times give different names |
| `Switcher.CutoverTouchesOnlyOldGenerations` | es6/switcher.go:63-78 | every action after the leading `add` names a catalog index of the alias's pattern and never the new index |
| `Switcher.LiteralAliasAgrees` | es6/switcher.go:118 | for an alias without regex metacharacters the compiled pattern is the literal match the rest of the model uses |
| `Switcher.UnescapedAliasMatchesForeignIndex` | es6/switcher.go:118 | with the alias `my.index` the compiled pattern accepts `my-index_20200101000000`, which is no generation of that alias, and retention 0 would delete it |
| `Retention.Plan` | es6/switcher.go:63-78 | one action per old generation, in the given order, naming that generation; none is an `add`; every `remove` carries the alias |
| `Retention.Cutover` | es6/switcher.go:49-78 | the request has length 1 + number of old generations, starts with `add{alias, index}` and holds no other `add`; action i + 1 names old generation i |
| `Retention.PlanSplit` | es6/switcher.go:63-77 | the plan is `remove_index` for the oldest `DeleteCount(n, retention)` generations followed by `remove` for the rest |
| `Retention.CutoverEffect` | es6/switcher.go:49-78 | the request binds the alias to the new index only, deletes exactly the oldest `DeleteCount` old generations and unbinds exactly the others, in order |
| `Retention.NegativeRetentionKeepsAll` | es6/switcher.go:64-70 | a negative retention deletes nothing and unbinds every old generation |
| `Retention.ZeroRetentionDeletesAll` | es6/switcher.go:63-77 | a retention of 0 deletes every old generation and unbinds none |
| `Retention.RetentionKeepsNewest` | es6/switcher.go:63-77 | a retention k >= 0 deletes max(0, n - k) and unbinds min(n, k), the unbound ones being the last in the sorted order; with k >= n nothing is deleted |
| `Retention.DeletedBeforeKept` | es6/switcher.go:63-78 | over sorted old generations every deleted index sorts at or before every unbound one |
| `Sorting.Sort` | es6/switcher.go:127 | a reference insertion sort; its result has the same elements as its input |
| `Sorting.SortInPlace` | es6/switcher.go:127 | the array ends up as the unique sorted permutation of its contents |
| `Sorting.SortedUnique` | es6/switcher.go:127 | two sorted lists with the same elements are equal, so the sort's result does not depend on the algorithm |
| `Sorting.SortSorted` | es6/switcher.go:127 | the reference sort returns a sorted list |
| `Strings.Less` | es6/switcher.go:127 | Go's `<` on strings: lexicographic, a proper prefix first |
| `Strings.LessTotal` | es6/switcher.go:127 | any two strings are equal or ordered one way by Go's string comparison |
| `Strings.LessConcat` | es6/switcher.go:127 | strings starting with equal-width blocks compare by the blocks first, then by the rest |
| `TimeFormat.Format` | es6/switcher.go:24 | the layout `20060102150405`: year with sign and at least four digits, then month, day, hour, minute and second as two zero-padded digits each |
| `TimeFormat.FixedRoundTrip` | es6/switcher.go:24 | reading a zero-padded field back as a decimal number gives the number that was formatted |
| `TimeFormat.FixedLess` | es6/switcher.go:24 | zero-padded numbers of one width compare as strings as they compare as numbers |
| `TimeFormat.FormatDigits` | es6/switcher.go:24 | a valid time with a four-digit year formats to 14 digits, each field zero-padded |
| `TimeFormat.FormatOrder` | es6/switcher.go:24 | for four-digit years, `t` is before `u` iff `Format(t)` sorts before `Format(u)` |
| `TimeFormat.FiveDigitYearBreaksOrder` | es6/switcher.go:24 | the first second of year 10000 formats to a string sorting before the last second of 9999 |

## Findings

| source | as written | input that shows it | evidently intended | confidence | as-written member | corrected member |
|---|---|---|---|---|---|---|
| es6/switcher.go:118 | the alias is spliced into the regular expression unescaped | alias `my.index`, catalog `[my-index_20200101000000]`, retention 0: the foreign index is matched and gets `remove_index` | only `<alias>_<digits>` is matched, the alias read literally (as with `regexp.QuoteMeta`) | medium, not executed | `Switcher.UnescapedAliasMatchesForeignIndex` | `Switcher.GenerationPatternExact` |

The as-written pattern is modelled (`PatternAsWritten`) only for aliases whose sole
metacharacter is `.`. For aliases with no metacharacter, `LiteralAliasAgrees` shows that
the code and the corrected predicate `IsGenerationOf` agree. The rest of the model uses
the corrected predicate.

## Left out

- es6/indexer.go is not part of this model. It wraps a foreign bulk indexer whose batching, timed flushing, concurrency and callbacks are not visible.
- HTTP round trips (`Indices.Create`, `CatIndicesRequest`, `IndicesUpdateAliasesRequest`, `IsError`) are inputs: an `Outcome` or `Result` per reply. The `%+v` error text is an opaque `Error` value.
- JSON encoding of the actions and decoding of the catalog are not modelled. The catalog is the list of its `index` names, and the request is a `seq<Action>`.
- A `json.Marshal` failure (es6/switcher.go:80-83) cannot occur for these string maps, so it is not modelled.
- `time.Now()` is a `DateTime` parameter already broken into UTC fields. Converting an instant into calendar fields is not modelled, and chronological order is the field-by-field order.
- The regular-expression engine is replaced by the literal predicate `IsGenerationOf`. The unescaped alias is covered only for `.` (see Findings).
- `context.Context` cancellation is not modelled.
- `Sorting.SortInPlace`: `sort.Strings` uses pattern-defeating quicksort, here an insertion sort. Any sorting algorithm gives the same result (`SortedUnique`).
- Old generations are ordered by string order, as in the source. The model proves that this is creation order only for names of the 14-digit form (`SortedGenerationsOldestFirst`). For other digit counts the source's order is not creation order, and the model reproduces that (`OtherWidthNameSortsLast`).
- Switcher.Switcher.Name: requires `Valid()`, which holds for every switcher `NewSwitcher` creates.
- `Switch` being called at most once per switcher is not enforced. The source does not enforce it either.
- Go's `int` is 64 bits wide. `len(oldIndices) - retention` is evaluated only for `retention >= 0`, where it cannot overflow, so retention is an unbounded `int`.
