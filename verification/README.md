# Catalog utilities of the NMIND proceedings site, in Dafny

This project models `src/lib/utils.ts`, the helper module behind the
library directory and search of the NMIND proceedings site. The catalog
holds checklist schemas and evaluated libraries. The module:

- finds the most recent evaluation of a library by comparing `date` strings;
- scores a checklist tier as checked items over all items;
- looks up a schema by version, a prompt by item id, and a URL by its label;
- turns a checklist tier into prompt/value pairs for display;
- filters the library list. `filterLibraryData` runs three stages in order:
  section-tier completion, then a comma-separated tag query, then a
  case-insensitive name match. The tag stage has two strategies: every tag
  exact, or the last tag partial while the user is still typing it.

All of it is pure functions over sequences. The dataset is a parameter
instead of a module import. JavaScript objects used as dictionaries are
association lists in `Object.entries` order. Every `throw`, and every
unguarded property access that would raise a `TypeError`, is a `Failure`
of the `Result` type.

Files, one module each:

- `wrappers.dfy`: `Option` and `Result`.
- `js_string.dfy`: the string primitives the source relies on. These are
  `<` (proved a strict total order), `toLowerCase`, `includes`, `endsWith`,
  `split` with `Join` as its inverse, and `trim`.
- `seqs.dfy`: `filter` and `find` on sequences. Also order-preserving
  subsequences, and the algebra of successive filters.
- `catalog.dfy`: the entities (schema, evaluation, library, URL) and the error kinds.
- `recency.dfy`: `getMostRecentEvaluation`.
- `lookups.dfy`: the three first-match lookups.
- `checklist.dfy`: `mungeChecklistValue` and `mungeChecklistSectionTier`.
- `tag_filter.dfy`: the two tag strategies and the tokenising of the raw tag query.
- `library_filter.dfy`: the three stages of `filterLibraryData` and the composite.

Behaviour worth knowing, as the code has it:

- A section-tier token without `-` destructures to an `undefined` tier.
  As a property key that reads as the string `"undefined"`, so the model
  looks up the tier named `"undefined"`.
- A non-empty tag query with no tokens and no trailing comma (say `" "`)
  hands an empty list to the inclusive strategy. That strategy then calls
  `toLowerCase` on `undefined`. The call throws as soon as a remaining
  library has a tag; otherwise the stage yields the empty list. The model
  states exactly this (`LibraryFilter.FilterLibraryDataFails`).
- In the section-tier stage, a library with no evaluations, or one missing
  the section or tier, aborts the whole search. It does not merely drop
  that library. The failure happens only if the library is still in the
  list when the offending token is checked.

## Model

| member | source | states |
|---|---|---|
| `Recency.MostRecentEvaluation` | src/lib/utils.ts:10-28 | absent exactly for an empty list; the sole element of a singleton; otherwise an element whose date no other date exceeds and before which every date is strictly earlier, so ties keep the first |
| `Recency.ReduceLatest` | src/lib/utils.ts:16-26 | the reduce, replacing its choice only on a strictly later date, ends on the first position holding a latest date |
| `Recency.FirstLatestUnique` | src/lib/utils.ts:16-26 | at most one position is the first latest one, so the reduce's answer is determined by the list |
| `Recency.MostRecentDateIsMaximum` | src/lib/utils.ts:10-28 | every evaluation's date is equal to or before the date of the returned evaluation |
| `Recency.MostRecentDateOrderIndependent` | src/lib/utils.ts:10-28 | reordering the evaluations does not change the most recent date, only which equally dated evaluation is returned |
| `JsString.LessTransitive` | src/lib/utils.ts:21 | string `<` is transitive |
| `JsString.LessTotal` | src/lib/utils.ts:21 | of two distinct strings one is `<` the other |
| `Checklist.CheckedCount` | src/lib/utils.ts:32 | the number of true entries: at most the entry count, equal to it exactly when all are true, zero exactly when none is |
| `Checklist.MungeChecklistValue` | src/lib/utils.ts:30-34 | numerator = number of true values, denominator = number of entries, numerator ≤ denominator, equal exactly when every item is checked; `{}` gives 0/0 |
| `Checklist.MungeChecklistValueConcat` | src/lib/utils.ts:30-34 | numerators and denominators add up over concatenated tiers |
| `Checklist.MungeChecklistValueExample` | src/lib/utils.ts:30-34 | `{a: true, b: false, c: true}` scores 2/3 |
| `Lookups.FindEvaluationSchemaByVersion` | src/lib/utils.ts:66-70 | absent exactly when no schema has the version; otherwise the first schema with that version |
| `Lookups.FindSchemaWithUniqueVersions` | src/lib/utils.ts:66-70 | with distinct versions, looking up a schema's version returns that schema |
| `Lookups.SectionTierPromptById` | src/lib/utils.ts:36-39 | absent exactly when no item has the id; otherwise the prompt of the first item with that id, even an empty one |
| `Lookups.LibraryUrlByTextDescriptor` | src/lib/utils.ts:72-74 | absent exactly when no URL has the label; otherwise the first URL whose label equals it exactly |
| `Checklist.MungeEntries` | src/lib/utils.ts:49-58 | never longer than the input; every output prompt is non-empty |
| `Checklist.MungeEntriesKeepsDisplayable` | src/lib/utils.ts:49-58 | the output lists, in input order, exactly the entries whose prompt exists and is non-empty; each has its id replaced by that prompt and its value unchanged |
| `Checklist.MungeEntriesKeepsAll` | src/lib/utils.ts:49-58 | when every id has a non-empty prompt nothing is dropped and the i-th output is the i-th entry's prompt and value |
| `Checklist.MungeChecklistSectionTier` | src/lib/utils.ts:41-64 | fails, with the schema-not-found error, exactly when no schema has the version; otherwise no longer than the input, with non-empty prompts |
| `Checklist.MungeChecklistSectionTierLists` | src/lib/utils.ts:41-64 | on success lists, in input order, exactly the entries whose id has a truthy prompt in the first schema of the requested version, each relabelled with that prompt and keeping its checked value |
| `TagFilter.FilterTagsByExactQueryMatchesOnly` | src/lib/utils.ts:76-84 | an order-preserving subsequence of the input; the input itself for no queries |
| `TagFilter.ExactFilterSelects` | src/lib/utils.ts:76-84 | the successive passes keep, in order, exactly the libraries having, for every query, a tag equal to it ignoring case |
| `TagFilter.FilterTagsWithFinalQueryInclusiveMatching` | src/lib/utils.ts:86-103 | an order-preserving subsequence of the input; needs at least one query |
| `TagFilter.FinalInclusiveFilterSelects` | src/lib/utils.ts:86-103 | keeps, in order, exactly the libraries matching every query but the last exactly and having a tag that contains the last, ignoring case |
| `TagFilter.ExactNarrowsFinalInclusive` | src/lib/utils.ts:76-103 | for the same queries the exact strategy keeps a subsequence of what the inclusive one keeps |
| `TagFilter.TagMatchingIgnoresQueryCase` | src/lib/utils.ts:79 | a query and its lower-cased form match the same tags |
| `TagFilter.TagTokens` | src/lib/utils.ts:136-139 | every token is non-empty, trimmed and comma-free; at most one token per comma-separated piece |
| `TagFilter.TagTokensOfPieces` | src/lib/utils.ts:136-139 | the tokens of a query made of comma-free pieces are those pieces, each trimmed, with the blank ones dropped, in order; since every query is the comma-join of its split pieces, this fixes the tokens of every query |
| `TagFilter.TagTokensOfJoin` | src/lib/utils.ts:136-139 | tokenising comma-joined clean tags gives back the tags |
| `TagFilter.TagTokensOfJoinWithTrailingComma` | src/lib/utils.ts:136-139 | a trailing comma adds no token |
| `JsString.Split` | src/lib/utils.ts:137-138 | at least one piece, none containing the separator |
| `JsString.JoinSplit` | src/lib/utils.ts:137-138 | joining the pieces of a split restores the string |
| `JsString.SplitJoin` | src/lib/utils.ts:137-138 | splitting a join of separator-free pieces restores the pieces |
| `JsString.Trim` | src/lib/utils.ts:139 | the result is the input with a whitespace-only prefix and a whitespace-only suffix cut off, has no whitespace at either end, and is empty exactly when the input is all whitespace |
| `JsString.TrimTrimmed` | src/lib/utils.ts:139 | trimming leaves an already trimmed string alone |
| `JsString.ContainsAtOffset` | src/lib/utils.ts:99 | `includes` holds exactly when the needle occurs at some offset of the haystack |
| `LibraryFilter.ParseSectionTier` | src/lib/utils.ts:117 | section and tier are dash-free; a token without a dash names itself as section and the tier "undefined" |
| `LibraryFilter.ParseSectionTierOfParts` | src/lib/utils.ts:117 | `a-b`, `a-b-c`, … all name section `a` and tier `b`: only the first two parts count |
| `LibraryFilter.TierComplete` | src/lib/utils.ts:119-126 | fails with the no-evaluation error when the library has no evaluation; succeeds exactly when the tier exists in the most recent evaluation, and then is true exactly when the tier's score is full |
| `LibraryFilter.FilterByTier` | src/lib/utils.ts:119-126 | succeeds exactly when no library's check throws, and then keeps, in order, exactly the libraries whose tier is complete |
| `LibraryFilter.FilterBySectionTiers` | src/lib/utils.ts:114-128 | on success an order-preserving subsequence; no tokens leave the list unchanged |
| `LibraryFilter.FilterBySectionTiersSelects` | src/lib/utils.ts:114-128 | succeeds exactly when no library throws while it is still being checked, and then keeps, in order, exactly the libraries completing every requested tier |
| `LibraryFilter.FilterByTagQuery` | src/lib/utils.ts:130-142 | an empty query changes nothing; fails exactly for a token-less query without trailing comma when some library has a tag; otherwise an order-preserving subsequence |
| `LibraryFilter.FilterByTagQuerySelects` | src/lib/utils.ts:130-142 | on success keeps, in order, exactly the libraries the query selects: a trailing comma chooses the exact strategy, anything else the inclusive one |
| `LibraryFilter.FilterByName` | src/lib/utils.ts:144-151 | an order-preserving subsequence whose every name contains the query, ignoring case; an empty query changes nothing |
| `LibraryFilter.FilterByNameSelects` | src/lib/utils.ts:144-151 | the stage keeps exactly the libraries whose name contains the query, so skipping it for an empty query is harmless |
| `LibraryFilter.FilterLibraryData` | src/lib/utils.ts:105-154 | on success an order-preserving subsequence of the catalog; all three queries empty return the catalog unchanged |
| `LibraryFilter.FilterLibraryDataSelects` | src/lib/utils.ts:105-154 | on success returns, in catalog order, exactly the libraries that complete every tier, match the tag query and match the name |
| `LibraryFilter.FilterLibraryDataFails` | src/lib/utils.ts:114-142 | fails exactly when a library throws in the section-tier stage, or a token-less tag query without trailing comma meets a tagged library that passed that stage |
| `LibraryFilter.TrailingCommaSelectsExactTag` | src/lib/utils.ts:131-141 | the query `tag,` alone keeps exactly the libraries with that tag, ignoring case |
| `LibraryFilter.NameQueryAlone` | src/lib/utils.ts:144-151 | a name query alone keeps, in order, exactly the libraries whose name contains it |
| `LibraryFilter.UnfinishedLastTokenMatchesPartOfTag` | src/lib/utils.ts:97-100 | `first,last` keeps a library having the tag `first` and a tag containing `last` |
| `LibraryFilter.FinishedLastTokenNeedsWholeTag` | src/lib/utils.ts:131-141 | `first,last,` drops a library that has no tag equal to `last` |
| `LibraryFilter.ReactTestExample` | src/lib/utils.ts:79-99 | the tags `react` and `testing-library` have `react` as a whole tag and `test` only inside a tag, so `react,test` keeps the library and `react,test,` drops it |

## Left out

- `sortEvaluationsByDate` (src/lib/utils.ts:4-8) is not modelled. It parses
  dates with JavaScript `Date` and sorts the array in place. Both are
  runtime behaviour outside this model.
- The static JSON import and the asynchronous `import('$lib/data.json')` are
  not modelled. The schema list and the library list are parameters instead.
- `src/lib/types.ts` is not part of this model. The entity shapes come from
  how `utils.ts` uses them. The schema's `@context.@version` is a plain
  integer `version`.
- `toLowerCase` lowers the ASCII letters only. Unicode case mapping is not
  modelled. The tag and name properties hold relative to this `Lower`.
- String `<` compares characters. JavaScript compares UTF-16 code units.
  The two orders differ only for characters outside the Basic Multilingual
  Plane.
- `Object.entries` order is the order of the association list. JavaScript
  lists integer-like keys first, in ascending order; that is not modelled.
  Keys inherited from the object prototype (`constructor`, `__proto__`)
  are not modelled either.
- A dictionary lookup returns the first entry with the key. `JSON.parse`
  keeps the last of duplicate keys. The two agree on the dataset's objects,
  whose keys are distinct.
- The `!mostRecentEvaluationSoFar` guard of the reduce is not modelled. It
  never fires, because every evaluation is an object.
- Checklist values are booleans. Truthiness of other JSON values in
  `every(item => item)` and in the numerator's `filter` is not modelled.
- Thrown exceptions become error values: `NoMatchingSchema`, `NoEvaluation`,
  `MissingChecklistPath`, `UndefinedTagQuery`. Their message texts and the
  JavaScript `TypeError` class are not modelled. A checklist section or
  tier that exists but is not an object is not modelled.
- `LibraryFilter.FilterLibraryDataFails` says when the search fails but not
  which error is reported when several libraries would throw. `FilterByTier`
  reports the first library's error, as `Array.prototype.filter` does.
- The commented-out description search (src/lib/utils.ts:148-149) is not
  code and is not modelled.
