# berkeleystore query engine, modelled in Dafny

This project models the query engine and index-key logic of the Berkeley DB
backed entity store in `lib/helma/storage/berkeleystore.js`, and proves
properties of that model.

The store keeps one primary database per entity type. Rows are keyed by an
integer id and hold the record as JSON. Beside it sits one secondary index,
with sorted duplicates, whose key creator derives a key
*(property name, type tag, value)* from every indexable property of a record.
A query is built by chaining `equals`, `greater`, `greaterEquals`, `less` and
`lessEquals` on a base query. Its `select` does the following:

- it creates a fresh `QueryImpl` holding the chain's filters;
- it orders the filters by a cached weight;
- it scans the index for the first filter;
- for each further filter, it either scans again and intersects by id, or
  loads each remaining record and drops the ones that fail;
- it lists each surviving id once, as an id, as an entity wrapper or as one
  property of the record.

The model, file by file:

- `values.dfy` (module `Values`): property values.
  - `isIndexableProperty` and `getComparableValue`.
  - JavaScript's `==`, `<` and `<=` within one kind of value.
- `indexkey.dfy` (module `IndexKeys`): the key codec.
  - `propertyToIndexKey` and `indexKeyToProperty` over keys modelled as
    sequences of tuple fields.
  - The B-tree's order on those keys.
- `cursor.dfy` (module `Cursor`): the index as a sorted sequence of
  (key, primary id) entries.
  - `getSearchKey` is the first entry with exactly the probe key.
  - `getSearchKeyRange` is the first entry whose key is not below the probe.
  - `count()` is the number of entries with the probe key.
- `extraction.dfy` (module `Extraction`): the `createSecondaryKeys` callback,
  with the array-element check as written. The corrected check is stated
  beside it (see Findings).
- `filters.dfy` (module `Filters`): what `addFilter` builds.
  - `checkProperty` with its three verdicts `true`, `0` and `false`.
  - `checkObject`, `initIndexKey` and `initCursor`.
  - `getWeight`, with its cache as a mutable field of a `Filter` object.
- `table.dfy` (module `Tables`): a `Table` class.
  - It holds the primary rows (increasing ids) and the index. `Valid()` ties
    the two together.
  - Its `load`, `store`, `remove`, `retrieve` and `retrieveAll`.
  - The three shapes of a `select` result row.
- `planner.dfy` (module `Planner`): `QueryImpl.select`. It is stated in two
  layers.
  - Specification functions say what each filter sees: where its seek lands,
    the verdicts along the index, and the ids whose records pass
    `checkObject`. They also give the results after each pass (`Run`) and the
    final id set (`Execute`).
  - The `QueryImpl` class's methods perform the sort, the scan `while` loop
    with `break`, the record-check loop that deletes from the results, and
    the projection loop. Each method is proved equal to those functions.
- `completeness.dfy` (module `Completeness`): when `select` finds every
  match. Take a consistent table and string, number, boolean or Date
  arguments. Let each filtered property be absent or hold a value that the
  index keys under the argument's own kind: a short string, a number, a
  boolean, or a stored date against a Date. Then each filter's scan reaches
  exactly the records its record check passes. `select` then returns exactly the ids whose records pass every
  filter, in whatever order the filters run.
- `builder.dfy` (module `Queries`): the query objects.
  - Base and operator queries, and the five builder methods.
  - `getQuery`, which builds a fresh `QueryImpl` for each `select`.
  - The base query's `select` over the primary cursor.
- `store.dfy` (module `Stores`): the `Store` class.
  - Its registry of tables with `getTable` caching.
  - The store operations that route to one table.
  - The split of a key's `$ref` in `remove`.

Behaviour of the code that the model keeps, although a reader might expect
otherwise:

- Weights: the code gives 0 to every non-EQUAL filter. An EQUAL filter
  gets -5 when its key is absent, and `round((dup/numKeys - 0.5)·10)`
  otherwise. Only EQUAL filters are weighed by how many rows they match.
- Load passes: the switch to loading records happens exactly when
  `count <= numKeys/4`.
- Round trip: dates decode as epoch milliseconds, references as their `$ref`
  string, and null as undefined. Not every kind decodes to itself.
- Array elements: the element check only rejects nested arrays (see
  Findings).

## Model

| member | source | states |
|---|---|---|
| Values.IsIndexableProperty | lib/helma/storage/berkeleystore.js:597-605 | a value is indexable exactly when it is not a string longer than 200 characters, not a plain object, not a Date and not an entity wrapper |
| Values.ComparableValue | lib/helma/storage/berkeleystore.js:125-132 | an entity wrapper becomes its `$ref` string and a Date its milliseconds; a string, number or boolean passes through with its value, null stays null and undefined undefined; stored dates, keys, arrays and other objects stay opaque |
| Values.ComparisonTrichotomy | lib/helma/storage/berkeleystore.js:173-187 | on two values of one kind, `<=` is `<` or `==`, exactly one of `<`, `==`, `>` holds |
| IndexKeys.PropertyToIndexKey | lib/helma/storage/berkeleystore.js:543-570 | a key is the name, a tag from TYPE_NULL to TYPE_REFERENCE, and a value field exactly when omitValue is off and the tag is not TYPE_NULL |
| IndexKeys.IndexKeyToProperty | lib/helma/storage/berkeleystore.js:572-595 | decoding returns the key's name; TYPE_NULL and unknown tags decode to undefined and never fail |
| IndexKeys.RoundTrip | lib/helma/storage/berkeleystore.js:543-595 | decoding the key written for (name, v) gives name and v back: strings, numbers and booleans as themselves, dates as milliseconds, references as their `$ref`, anything else undefined |
| IndexKeys.UnknownKindIsNull | lib/helma/storage/berkeleystore.js:564-566 | a value of no recognised kind is written as name and TYPE_NULL alone, with or without omitValue, and decodes to undefined |
| IndexKeys.IndexAgreesWithComparable | lib/helma/storage/berkeleystore.js:125-132 | for undefined, null, strings, numbers, booleans and Dates, the decoded index value compares equal to getComparableValue of the argument |
| IndexKeys.WrapperReadsAsIndexed | lib/helma/storage/berkeleystore.js:125-132 | every stored property that the index keys with a value (a string, number, boolean, stored date or key) is read by the record check, through the wrapper and getComparableValue, as exactly the value the index decodes |
| IndexKeys.BoundKeyIsPrefix | lib/helma/storage/berkeleystore.js:543-566 | the key written with omitValue is exactly name and tag, the first two fields of every full key of that name and kind, and sorts strictly before it |
| IndexKeys.KeyOrderIsValueOrder | lib/helma/storage/berkeleystore.js:543-566 | for one name and one non-null kind, full keys are ordered as their decoded values are, and are equal exactly when those values are |
| IndexKeys.KeyOrderByNameThenTag | lib/helma/storage/berkeleystore.js:543-566 | keys sort by property name first and then by type tag |
| IndexKeys.KeyBetween | lib/helma/storage/berkeleystore.js:543-566 | a written key that lies between the key of `a` (with or without its value) and the full key of `b`, two values of one name and one non-null kind, has that name and kind, and its value lies between theirs |
| Cursor.SearchKey | lib/helma/storage/berkeleystore.js:158 | the exact seek lands on the first entry with the probe key, and fails exactly when no entry has it |
| Cursor.SearchKeyRange | lib/helma/storage/berkeleystore.js:159 | the range seek lands on the first entry whose key is not below the probe, and fails exactly when every key is below it |
| Cursor.DupCount | lib/helma/storage/berkeleystore.js:148 | the duplicate count is at most the index size and is zero exactly when no entry has the probe key |
| Extraction.CreateSecondaryKeys | lib/helma/storage/berkeleystore.js:472-488 | the loop adds exactly the record's keys as written: the key of every indexable non-array property, and the key of every element of an array property that is not itself an array |
| Extraction.KeyComesFromProperty | lib/helma/storage/berkeleystore.js:472-488 | every key comes from a property's own indexable, non-array value, or from any non-array element of its array, so it starts with that property's name |
| Extraction.PropertyKeyIsContributed | lib/helma/storage/berkeleystore.js:472-488 | every value a property puts into the index contributes its key to the record's keys |
| Extraction.ScalarPropertyKeys | lib/helma/storage/berkeleystore.js:476-485 | a non-array property contributes exactly its own key when indexable and nothing otherwise |
| Extraction.ArrayPropertyKeys | lib/helma/storage/berkeleystore.js:477-482 | an array property contributes one key per element that is not itself an array, whether or not the element is indexable on its own, and no other key |
| Extraction.ElementCheckAsWrittenAdmitsUnindexable | lib/helma/storage/berkeleystore.js:479 | as written, an object element and a string element over 200 characters are indexed, although neither is indexable alone |
| Extraction.ElementRuleMatchesScalarRule | lib/helma/storage/berkeleystore.js:476-484 | with the corrected check, a value is indexed inside an array exactly when it is indexed on its own |
| Filters.CheckProperty | lib/helma/storage/berkeleystore.js:173-187 | false for another property's key; true exactly when the operator's comparison holds (`null <= null` and `null >= null` included); 0 exactly for GREATER_THAN on an equal value |
| Filters.CheckObjectMeansSatisfies | lib/helma/storage/berkeleystore.js:166-172 | a loaded record passes exactly when it exists and its property, read through the entity wrapper and made comparable, satisfies the operator; a stored date is compared by its milliseconds and a stored key by its `$ref` |
| Filters.StoredDateAndKeyCompare | lib/helma/storage/berkeleystore.js:166-172 | a stored date passes GREATER_THAN against an earlier Date and fails it against the same Date; a stored key passes EQUAL against the wrapper of the entity it names |
| Filters.GreaterThanOnEqualValue | lib/helma/storage/berkeleystore.js:182-183 | on an equal value GREATER_THAN answers 0 to the index walk and fails the record check |
| Filters.InitIndexKey | lib/helma/storage/berkeleystore.js:153-155 | the seek key omits the value exactly for LESS_THAN and LESS_THAN_OR_EQUAL |
| Filters.InitCursorLands | lib/helma/storage/berkeleystore.js:156-160 | EQUAL lands on the first entry with exactly the seek key; every other operator on the first entry not below it; each fails exactly when there is no such entry |
| Filters.EqualWeight | lib/helma/storage/berkeleystore.js:148-149 | a present key weighs from -5 to 5 |
| Filters.EqualWeightIsRounded | lib/helma/storage/berkeleystore.js:148-149 | the weight is `Math.round((dup/numKeys - 0.5)·10)`: the integer w with 2n·w <= 20·dup - 9n < 2n·(w+1) |
| Filters.Weight | lib/helma/storage/berkeleystore.js:139-152 | every weight is at least -5; non-EQUAL filters weigh 0; an EQUAL filter whose key is absent weighs -5 |
| Filters.WeightCorrected | lib/helma/storage/berkeleystore.js:146 | with the corrected weight, exactly an EQUAL filter whose key is absent weighs -6, and every other filter weighs what getWeight gives it |
| Filters.Filter.GetWeight | lib/helma/storage/berkeleystore.js:139-152 | the weight of a present EQUAL key is computed once and cached; the -5 of an absent key and non-EQUAL weights leave the cache alone; a consistent cache stays consistent |
| Tables.Lookup | lib/helma/storage/berkeleystore.js:77-85 | a lookup finds the record stored under the id, and nothing exactly when no row has that id |
| Tables.UpsertLookup | lib/helma/storage/berkeleystore.js:87-90 | after a put, the id finds the new record and every other id what it found before |
| Tables.UpsertKeepsOrder | lib/helma/storage/berkeleystore.js:87-90 | a put keeps the rows in increasing id order |
| Tables.DeleteLookup | lib/helma/storage/berkeleystore.js:92-94 | after a delete, the id finds nothing and every other id what it found before |
| Tables.DeleteKeepsOrder | lib/helma/storage/berkeleystore.js:92-94 | a delete keeps the rows in increasing id order |
| Tables.IndexKeysDecode | lib/helma/storage/berkeleystore.js:472-488 | every key of a consistent index decodes |
| Tables.ProjectionOf | lib/helma/storage/berkeleystore.js:243-247 | `'_id'` asks for ids; a missing or empty argument asks for wrappers; any other name for that property |
| Tables.Table.Load | lib/helma/storage/berkeleystore.js:77-85 | the record stored under the id, and nothing exactly when no row has it |
| Tables.Table.Retrieve | lib/helma/storage/berkeleystore.js:96-102 | a wrapper for the id exactly when a row has it, and null otherwise |
| Tables.Table.Store | lib/helma/storage/berkeleystore.js:87-90 | the row is inserted or replaced, and the index holds exactly the other ids' entries plus the new record's keys, with array elements checked as written; the table stays consistent |
| Tables.Table.Remove | lib/helma/storage/berkeleystore.js:92-94 | the row is deleted with all its index entries; the table stays consistent |
| Tables.Table.RetrieveAll | lib/helma/storage/berkeleystore.js:104-119 | one wrapper per row, in increasing id order |
| Planner.WalkBounds | lib/helma/storage/berkeleystore.js:216-228 | a scan restricted to the previous results finds only ids among them, and counts at least as many entries as it collects ids |
| Planner.WalkIdsAccepted | lib/helma/storage/berkeleystore.js:216-223 | every id a scan collects comes from an entry checkProperty accepted |
| Planner.WalkCollectsReachable | lib/helma/storage/berkeleystore.js:216-228 | a scan collects every accepted entry it reaches before a false verdict |
| Planner.CountCountsEntries | lib/helma/storage/berkeleystore.js:218-223 | two accepted entries of one id give one id and a count of 2 |
| Planner.LoadPassKeeps | lib/helma/storage/berkeleystore.js:229-237 | a record-check pass keeps exactly the admitted ids among the previous results and takes one off the count per deleted id |
| Planner.PassShrinks | lib/helma/storage/berkeleystore.js:206-237 | any pass after the first keeps a subset of the ids it is given |
| Planner.PassesOnlyShrink | lib/helma/storage/berkeleystore.js:204-239 | no filter after the first adds an id: each later result is a subset of every earlier one |
| Planner.FailedSeekEndsQuery | lib/helma/storage/berkeleystore.js:210-215 | a seek that finds nothing ends the query, and select returns nothing |
| Planner.RunIsSound | lib/helma/storage/berkeleystore.js:204-239 | an id that survives the first k filters is admitted by each of them, through an accepted index entry or its loaded record |
| Planner.ExecuteIsSound | lib/helma/storage/berkeleystore.js:204-239 | every id select returns is admitted by every filter |
| Planner.ConsistentIndexDecodes | lib/helma/storage/berkeleystore.js:217 | in a consistent index every key under the cursor decodes |
| Planner.AdmittedMeansCheckObject | lib/helma/storage/berkeleystore.js:230-236 | an id survives the record check exactly when the record loaded for it passes checkObject |
| Planner.AdmitsMeansMatch | lib/helma/storage/berkeleystore.js:166-187 | in a consistent table an id a filter admits names a stored record, which carries an indexed value satisfying the filter or passes checkObject |
| Planner.QueryResultsMatchRecords | lib/helma/storage/berkeleystore.js:191-251 | every id select returns names a stored record, and every filter holds of it, through the index or through the record |
| Planner.EqualScanIsComplete | lib/helma/storage/berkeleystore.js:216-228 | an EQUAL scan on a sorted index finds every entry with the argument's exact key |
| Planner.AbsentEqualWeighsLeast | lib/helma/storage/berkeleystore.js:200-214 | after the sort, an EQUAL filter whose key is absent has a failing seek, and every filter before it weighs -5 too |
| Planner.AbsentEqualAloneEndsQuery | lib/helma/storage/berkeleystore.js:139-215 | when an absent EQUAL filter is the only filter weighing -5, the sort puts it first and select returns nothing |
| Planner.AbsentEqualTiesWithRareKey | lib/helma/storage/berkeleystore.js:146-149 | a key on one row in 21 weighs -5 like an absent key; an absent EQUAL filter run second as a record check does not end the query |
| Planner.AbsentEqualRunsFirstCorrected | lib/helma/storage/berkeleystore.js:146 | with the corrected weight, the first filter after the sort is an absent EQUAL filter whenever there is one, and select returns nothing |
| Planner.SortRankedSorted | lib/helma/storage/berkeleystore.js:200-202 | the sort orders the filters by weight |
| Planner.SortRankedFilters | lib/helma/storage/berkeleystore.js:200-202 | the sort neither drops nor duplicates a filter |
| Planner.RankedFiltersAreSorted | lib/helma/storage/berkeleystore.js:200-202 | filters ranked by their own weights are ordered pair by pair |
| Planner.Ascending | lib/helma/storage/berkeleystore.js:242 | the model's listing of the result: each id of the set exactly once, strictly ascending |
| Planner.Rows | lib/helma/storage/berkeleystore.js:241-250 | one row per id, in the given order; a property row holds the wrapper's property |
| Planner.QueryImpl.AddFilter | lib/helma/storage/berkeleystore.js:134-138 | a new filter object with an empty cache is appended and the earlier filters are kept |
| Planner.QueryImpl.ScanIndex | lib/helma/storage/berkeleystore.js:210-228 | the seek and the scan loop give the specified scan pass, and nothing when the seek fails |
| Planner.QueryImpl.WalkIndex | lib/helma/storage/berkeleystore.js:216-228 | the while loop with break computes the walk from the cursor position |
| Planner.QueryImpl.Recheck | lib/helma/storage/berkeleystore.js:229-237 | the delete loop computes the record-check pass |
| Planner.QueryImpl.RecheckAgainst | lib/helma/storage/berkeleystore.js:230-236 | the same loop, given the ids whose records pass |
| Planner.QueryImpl.RankFilters | lib/helma/storage/berkeleystore.js:200-202 | the comparator's weights are computed, the filters come out ordered by them and are the same filters, and the caches stay consistent |
| Planner.QueryImpl.SortFilters | lib/helma/storage/berkeleystore.js:200-202 | filters are a permutation of the old ones, sorted by weight, with consistent caches |
| Planner.QueryImpl.RunPasses | lib/helma/storage/berkeleystore.js:204-239 | the loop over the ordered filters returns the specified final id set |
| Planner.QueryImpl.RunPass | lib/helma/storage/berkeleystore.js:206-237 | one iteration scans (first filter, or count above a quarter of the rows) or rechecks records, as the pass function says |
| Planner.QueryImpl.Project | lib/helma/storage/berkeleystore.js:241-250 | the final loop lists one row per id |
| Planner.QueryImpl.Select | lib/helma/storage/berkeleystore.js:191-251 | the filters end up a permutation of the old ones sorted by weight, and the rows are the projection of the surviving ids, each once (in ascending order in the model) |
| Completeness.WalkIsExact | lib/helma/storage/berkeleystore.js:216-228 | a scan whose accepted entries carry exactly the admitted ids, with no false verdict before any of them, collects exactly the admitted ids among the previous results |
| Completeness.PassIsExact | lib/helma/storage/berkeleystore.js:206-237 | for such a filter, a scan pass and a record-check pass keep the same ids, and a failed seek means the filter admits nothing |
| Completeness.RunIsExact | lib/helma/storage/berkeleystore.js:204-239 | after the first k such filters the results are exactly the ids all of them admit; a failed seek only where a filter admits nothing |
| Completeness.ExecuteIsExact | lib/helma/storage/berkeleystore.js:204-239 | select returns exactly the ids every such filter admits |
| Completeness.EntryOf | lib/helma/storage/berkeleystore.js:472-488 | every entry of a consistent index is the key of a value its record puts into the index, and decodes to that property and value |
| Completeness.AcceptedEntry | lib/helma/storage/berkeleystore.js:166-187 | on a table of plain values, an entry the scan accepts is the key of its record's own value, of the argument's kind, and that record passes checkObject |
| Completeness.MatchHasEntry | lib/helma/storage/berkeleystore.js:166-187 | on a table of plain values, a record that passes checkObject has an index entry the scan accepts |
| Completeness.SeekKeyBelowAccepted | lib/helma/storage/berkeleystore.js:153-155 | an accepted value's key is the seek key for EQUAL, and at or above the seek key for the range operators |
| Completeness.EqualKeyAccepted | lib/helma/storage/berkeleystore.js:173-177 | an EQUAL filter accepts the key of its own argument |
| Completeness.ScanReaches | lib/helma/storage/berkeleystore.js:210-228 | the seek lands at or before every entry the scan accepts, and nothing between stops the walk |
| Completeness.EqualScanReaches | lib/helma/storage/berkeleystore.js:210-228 | EQUAL: the seek lands on the first entry of the argument's key, and every entry up to an accepted one is accepted |
| Completeness.RangeScanReaches | lib/helma/storage/berkeleystore.js:210-228 | the range operators: the seek lands at or before an accepted entry, and nothing between stops the walk |
| Completeness.RangeEntryBetween | lib/helma/storage/berkeleystore.js:173-187 | an entry whose key lies between a range filter's seek key and an accepted entry is accepted or skipped, never false |
| Completeness.PlanIsExact | lib/helma/storage/berkeleystore.js:191-239 | on a consistent table of plain values, each filter's scan reaches exactly the records its checkObject passes, and its seek fails only when there are none |
| Completeness.QueryIsExact | lib/helma/storage/berkeleystore.js:191-251 | on a consistent table of plain values, select returns exactly the ids of stored records that pass checkObject for every filter, whatever order the filters were sorted into |
| Completeness.RangeScanLeavesItsTag | lib/helma/storage/berkeleystore.js:173-187 | a property's boolean keys sort after its number keys, and its date keys after those; GREATER_THAN on the number 0 stops at a boolean key (the model takes `false == 0` and `true > 0` as false) and accepts a positive date key, which decodes as a plain number |
| Queries.BuiltFromExtendsChain | lib/helma/storage/berkeleystore.js:254-266 | building on a query never changes it: a derived query's filters start with the filters of every query it was built from |
| Queries.Equals | lib/helma/storage/berkeleystore.js:304-306 | the new query extends the receiver by one EQUAL filter |
| Queries.Greater | lib/helma/storage/berkeleystore.js:308-310 | the new query extends the receiver by one GREATER_THAN filter |
| Queries.GreaterEquals | lib/helma/storage/berkeleystore.js:312-314 | the new query extends the receiver by one GREATER_THAN_OR_EQUAL filter |
| Queries.Less | lib/helma/storage/berkeleystore.js:316-318 | the new query extends the receiver by one LESS_THAN filter |
| Queries.LessEquals | lib/helma/storage/berkeleystore.js:320-322 | the new query extends the receiver by one LESS_THAN_OR_EQUAL filter |
| Queries.GetQuery | lib/helma/storage/berkeleystore.js:262-266 | a fresh QueryImpl holding exactly the chain's filters, base end first, each new with an empty cache |
| Queries.BaseSelect | lib/helma/storage/berkeleystore.js:275-295 | the base query lists one row per primary row, in cursor order |
| Queries.CursorOrderIsAscending | lib/helma/storage/berkeleystore.js:284 | the primary cursor visits every id of the table in ascending order |
| Queries.Select | lib/helma/storage/berkeleystore.js:254-302 | a base query lists every row; an operator query's rows come from its own chain's filters in some weight order, run through select |
| Stores.SplitRefJoin | lib/helma/storage/berkeleystore.js:359 | splitting "type:id" gives back the type and the id when neither holds a colon |
| Stores.SplitRefWithoutColon | lib/helma/storage/berkeleystore.js:359 | a reference without a colon is all type, with an undefined id |
| Stores.Store.GetTable | lib/helma/storage/berkeleystore.js:337-343 | the registered table is returned unchanged; an unknown type gets a new empty table, registered from then on |
| Stores.Store.Load | lib/helma/storage/berkeleystore.js:345-347 | the record stored under the id in the type's table; a type seen for the first time gets a new empty table registered, as getTable does, and the registry is otherwise unchanged |
| Stores.Store.Put | lib/helma/storage/berkeleystore.js:349-352 | the record is put into its type's table, that table's index is updated, and no other table changes |
| Stores.Store.Query | lib/helma/storage/berkeleystore.js:354-356 | the base query on the type's table; a type seen for the first time gets a new empty table registered, as getTable does, and the registry is otherwise unchanged |
| Stores.Store.Remove | lib/helma/storage/berkeleystore.js:358-361 | the key's reference is split at the colon, and the row is deleted from the table its type names; no other table changes |
| Stores.Store.RemoveId | lib/helma/storage/berkeleystore.js:360 | the type's table loses the row under the id, and no other table changes |
| Stores.Store.Retrieve | lib/helma/storage/berkeleystore.js:363-365 | a wrapper exactly when the type's table holds the id; a type seen for the first time gets a new empty table registered, as getTable does, and the registry is otherwise unchanged |
| Stores.Store.RetrieveAll | lib/helma/storage/berkeleystore.js:367-369 | one wrapper per row of the type, in id order; a type seen for the first time gets a new empty table registered, as getTable does, and the registry is otherwise unchanged |

## Left out

- Berkeley DB plumbing is not modelled, because it is foreign I/O. This
  covers environment, database, index and sequence configuration, `tryClose`,
  `close`, the shutdown hook and `init`. The databases are sequences held by
  the tables.
- The tuple byte format (`TupleOutput`, `writeSortedDouble`) is not modelled.
  Keys are sequences of tuple fields, ordered field by field, with a proper
  prefix first.
- Numbers are integers, not IEEE doubles. `writeSortedDouble` is therefore
  taken as order-preserving on them.
- The weight's floating-point arithmetic is not modelled. `Math.round` of the
  ratio is computed exactly in integer arithmetic.
- JavaScript's loose comparisons across kinds (`null < 1`, `false == 0`,
  `true > 0`, `"5" == 5`) are not modelled. They are taken as false. This
  changes both halves of a filter:
  - on such a value the model's record check fails where the source's
    passes;
  - the model's index walk stops at such a key where the source's skips it
    (0) or accepts it. Past the number keys, the source's `greater('x', 0)`
    skips `false` and accepts `true`, while the model's walk stops at
    `false` (`Completeness.RangeScanLeavesItsTag`).

  See also `Completeness.QueryIsExact` below.
- JSON parsing and serialisation are not modelled. A record is a map from
  property names to values.
- Tables.Table.Store: `JSON.stringify` (line 89) drops a property whose
  value is undefined, and the model keeps it. The model therefore indexes
  `{x: undefined}` under `[x, TYPE_NULL]`, and `equals('x', null)` finds
  that record in the model but not in the source.
- Tables.Table.Valid does not require the index entries to be distinct.
  Every table the model's operations build holds each (key, id) entry once,
  as the source's key set does (lines 480 and 484). The lemmas about valid
  tables also cover tables with repeated entries, whose counts the source
  cannot produce.
- `Storable` and the `storeutils` helpers (`createKey`, `getId`, `getType`,
  `isKey`, `isStorableDate`, `isStorable`) are not part of this model. The
  model takes this reading of them:
  - `isKey`, `isStorableDate` and `isStorable` recognise exactly the store's
    key objects (`Key`), its serialised dates (`StoredDate`) and entity
    wrappers (`Entity`).
  - `propertyToIndexKey` has no branch for a wrapper, so a wrapper given as
    a filter argument is keyed `[name, TYPE_NULL]`. `equals('owner', w)`
    therefore seeks the null key, and its scan accepts nothing.
  - The type and id of a stored entity are parameters of `Store.Put`.
  - Wrappers are rows naming a type and an id.
  - A wrapper's property (`Values.WrapperGet`) is the record's property,
    except that a stored date is handed back as a Date (as test/all.js:39
    shows) and a stored key as the wrapper of the entity it names. The
    record check and the property rows of `select` read through it.
- Stores.Store.Remove: converting the id text to the integer key
  (`IntegerBinding` on a string) is left to a parameter, `toInt`. A negative
  result deletes nothing, as no row has that key.
- Ids in `select` results are integers. The source's `for…in` yields them as
  strings.
- The `if (!id) continue;` at line 231 is not modelled. A property name is
  never falsy, so it skips nothing.
- The record-check loop removes ids in an unspecified order. Its result does
  not depend on the order.
- A key under the cursor that does not decode ends the walk in the model,
  where the tuple reader would throw. In a consistent index every key
  decodes (`Planner.ConsistentIndexDecodes`).
- `filters.sort` is modelled as an insertion sort that runs after every
  weight has been asked for once.
  - The order among filters of equal weight is left open: `Queries.Select`
    promises some weight order.
  - An absent EQUAL key is asked for its weight again on every comparison.
    It answers -5 each time, so those repeated calls are not modelled.
- `initCursorBoth` (lines 161-165) is never called, so it is not modelled.
- `Store.search` (lines 371-373) calls a `Table.search` that does not exist,
  so it is not modelled.
- Not modelled because they are glue around the store or external helpers:
  `generateId` and its sequence, the module-level `search`, `all`, `get`,
  `query` and `remove` wrappers, `save`, `getEntity` and `equalValues`.
- Transactions are not modelled. The `txn` parameters are ignored by the
  code itself.
- Concurrent use of the shared store is not modelled.

- Planner.QueryImpl.Select: the model lists the surviving ids in ascending
  order. The source lists them in the order in which `for (id in results)`
  visits the properties of `results`, and that order is the engine's. Rhino
  visits them in insertion order: the order in which the last index scan
  reached them. The model promises the set of ids, each listed once, and not
  the source's order.
- Planner.Ascending: the ascending listing is the model's choice of order
  (see `Planner.QueryImpl.Select` above).
- Queries.Select: an operator query's rows are listed in the model's
  ascending order, not the engine's `for…in` order.
- Stores.Store.GetTable: the registry is a map from type name to table. In
  the source it is an Array (line 53) indexed by the type name, so a type
  named after an Array property misbehaves there. Assigning a table to
  `tables['length']` throws. `push`, `constructor` or `toString` find a
  built-in function instead of a table. The model gives those names a table
  like any other.
- Values.StrLess: strings are compared character by character, each
  character taken as one code point. JavaScript compares UTF-16 code units,
  which order characters outside the Basic Multilingual Plane differently.
- Completeness.QueryIsExact: `select` is proved exact only under these
  conditions:
  - every argument is a string, a number, a boolean or a Date;
  - every filtered property is absent, or is keyed by the index under the
    argument's own kind: a string of at most 200 characters against a
    string, a number against a number, a boolean against a boolean, a
    stored date against a Date.

  Outside them the source itself is not exact: the index scan and
  `checkObject` disagree, so its result depends on which filters run as
  scans and which as record checks, and so on the table's size.
  - An EQUAL scan stays on its argument's key.
  - A range scan starts at the argument's tag and walks forward. It never
    reaches a key of a lower tag. It runs on into the keys of higher tags as
    long as checkProperty answers true or 0
    (`Completeness.RangeScanLeavesItsTag`).
  - The record check compares each record's value, whatever its tag.

  So:
  - an array property is indexed element by element, while `checkObject`
    compares the whole array as an opaque object;
  - a string over 200 characters is not indexed, while `checkObject` reads it;
  - a stored key is indexed under TYPE_REFERENCE, while `checkObject` reads
    its `$ref` string. A record whose `$ref` equals a string argument, or
    matches a wrapper argument (keyed under TYPE_NULL), passes the record
    check, and the EQUAL scan never reaches it;
  - `checkObject` compares a number property against a Date argument, or a
    stored date against a number argument, by milliseconds:
    - a Date argument's scan starts past every number key (TYPE_NUMBER
      sorts before TYPE_DATE) and never reaches them;
    - a number argument's EQUAL scan never reaches a date key;
    - its range scan reaches a date key only when nothing in between stops
      it, and then accepts it as a plain number;
  - a null argument finds only explicit nulls in the index, while
    `checkObject` also passes records that lack the property;
  - JavaScript compares across kinds: `null < 1`, `null >= 0`,
    `false == 0`, `true > 0` and `"5" == 5` are true. `checkObject` passes
    such a record. The scan reaches its key only when that key sorts after
    the seek key and nothing in between stops the walk. Null keys sort
    before every seek key, and string keys before a number's. The model
    takes those comparisons as false (see above). Its record check
    therefore rejects such a record where the source's passes it, and its
    walk stops at such a key where the source's goes on.

  On such tables only soundness is proved (`Planner.QueryResultsMatchRecords`).

## Findings

| source | as written | input that shows it | evidently intended | confidence | as-written member | corrected member |
|---|---|---|---|---|---|---|
| lib/helma/storage/berkeleystore.js:479 | `isIndexableProperty(value[i])` passes the element as the name and leaves the value undefined, which always passes; so only nested arrays are rejected | a record `{tags: [{}]}` or `{tags: [s]}` with `s` longer than 200 characters: the element is indexed, while `{tags: s}` is not | `isIndexableProperty(prop, value[i])`: an array element is indexed exactly when it would be indexed on its own | high (not executed) | Extraction.ElementCheckAsWrittenAdmitsUnindexable | Extraction.ElementRuleMatchesScalarRule |
| lib/helma/storage/berkeleystore.js:146 | an absent EQUAL key weighs -5, the same as a present key found on fewer than one row in 20 | a table of 21 rows and the query `equals('a', v).equals('x', null)`, where `v` is on one row that lacks `x` and no row has `x` set to null: the sort may run `equals('a', v)` first; `equals('x', null)` then runs as a record check and keeps that row, where running it first would have ended the query empty | an absent key weighs strictly less than every present key, so its filter always runs first and ends the query | medium (not executed) | Planner.AbsentEqualTiesWithRareKey | Planner.AbsentEqualRunsFirstCorrected |

In both rows the tables and the planner follow the code as written. The
corrected members state the intended behaviour beside it.
