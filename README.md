# SpQL predicate engine of sparse, in Dafny

This project models the part of `sparse` that evaluates SpQL queries once
they are parsed. A parsed query is a list of clauses `{fields, operator,
values}`, stored by the interpreter as `_last_query`. `SpQLInterpreter`
compiles the clauses for one of two backends:

- a MongoDB `$match` pipeline (`mongo_query`);
- a chain of filters over a pandas data frame (`dataframe_query`).

Both backends use the comparison table `OPERATORS` and `bool_test`. The
model also covers the dictionary and list utilities of `utils.py` that the
engine uses around query results:

- rank inversion (`invert`) and rank re-labelling (`reduce_units`);
- flattening, building and re-interpreting nested dicts;
- stacking and merging lists of records;
- double look-up-table translation.

Modules, one per file:

- `Wrappers`: `Option`, `Result` and the Python exceptions that the core raises (`KeyError`, `IndexError`, `TypeError`).
- `Values`: cell and dict values (`Int`, `Str`, `Missing` for NaN), with Python 2 comparisons and `str()`.
- `Assoc`: a Python dict as an association list in iteration order. Assigning to an existing key keeps its position.
- `Operators`: the operator table, `make_iterable` and `bool_test`. The regex engine is a parameter `search(pattern, text, ignoreCase)`.
- `Query`: a clause of a parsed query.
- `MongoBackend`: `_gen_mongo_query` and the clause-by-clause list of `mongo_query`.
- `TabularBackend`: a data frame as column names plus rows, with `_gen_dataframe_query` and the fold of `dataframe_query`.
- `Interpreter`: the `SpQLInterpreter` class. It holds the stored clause list and runs both backends over it.
- `Ranks`: `invert` and `reduce_units`, specified through the rank of a value among the distinct values.
- `NestedDicts`:
  - nested dicts as a tree of `Leaf`/`Dict` nodes;
  - `flatten_nested_dict`;
  - `matrix_to_nested_dict`, via a path-update function `SetPath`;
  - `interpret_nested_dict`.
- `Records`: `stack_dict`, `list_dict_to_dict` and `merge_list_dicts`.
- `Luts`: `double_lut_transform` and its duplicate-value warnings.

## Model

| member | source | states |
|---|---|---|
| Values.ComparisonsConsistent | python/sparse/utilities/utils.py:143-159 | `!=` is the negation of `==`. `<=` is `<` or `==`, and `>`/`>=` are the mirrored `<`/`<=`. |
| Values.LessIsStrictOrder | python/sparse/utilities/utils.py:149-150 | Python 2 `<` on non-missing values is irreflexive, transitive and total: ints before strings, strings lexicographic. |
| Values.MissingComparisons | python/sparse/utilities/utils.py:143-159 | NaN is never `==` to anything, and `NaN != NaN` holds. NaN is neither `<` nor `>` a number. |
| Operators.Lookup | python/sparse/utilities/utils.py:189-190 | A found operator is the one whose key is that text. Not found means no operator of the table has that key. |
| Operators.LookupIsInverseOfName | python/sparse/utilities/utils.py:189-190 | Looking up an operator's own key gives back that operator. |
| Operators.NegatedRegexIsComplement | python/sparse/utilities/utils.py:161-187 | `nre` holds exactly when `re` fails, and `nre.IGNORECASE` exactly when `re.IGNORECASE` fails. Both search `str(value)` in `str(item)`. |
| Operators.MakeIterable | python/sparse/utilities/utils.py:104-115 | A list is returned as is. A string is iterated character by character. A number or NaN is wrapped in a one-element list. |
| Operators.AnyPasses | python/sparse/utilities/utils.py:195-198 | True exactly when some value of the list passes the test against the item. |
| Operators.BoolTest | python/sparse/utilities/utils.py:192-198 | Fails with `KeyError(operator)` exactly when the operator is not in the table. Otherwise true exactly when some value passes. |
| Operators.BoolTestOrOverValues | python/sparse/utilities/utils.py:192-198 | An empty value list gives false. One passing value makes the whole test true. |
| Operators.BoolTestScalar | python/sparse/utilities/utils.py:192-198 | A single non-string value behaves like the one-element list holding it. |
| MongoBackend.GenMongoQuery | python/sparse/model/SpQLInterpreter.py:50-68 | The loop builds the same stage as the specification `MatchStage`. |
| MongoBackend.Subquery | python/sparse/model/SpQLInterpreter.py:58-62 | Builds `{field: {op: value}}`, with `'$options': 'i'` added exactly for a case-insensitive operator. |
| MongoBackend.LeavesLength | python/sparse/model/SpQLInterpreter.py:55-62 | The number of sub-queries is the product of the field and value counts. |
| MongoBackend.LeafAt | python/sparse/model/SpQLInterpreter.py:55-62 | There are `|fields|*|values|` sub-queries, field-major. Entry `i*|values|+j` is the leaf for `fields[i]` and `values[j]`. |
| MongoBackend.DialectCoversOperators | python/sparse/model/SpQLInterpreter.py:51-54 | Gives the operator mapping. `<=` and `>=` are the table operators with no Mongo operator, so the clause raises `KeyError`. |
| MongoBackend.FlagsFollowOperator | python/sparse/model/SpQLInterpreter.py:60-66 | `$options: 'i'` is added exactly when the operator contains `IGNORECASE`. The combinator is `$not` exactly when it contains `nre`, and `$or` otherwise. |
| MongoBackend.MatchStageByOperator | python/sparse/model/SpQLInterpreter.py:50-68 | Gives the stage produced for each of the ten table operators. |
| MongoBackend.MongoStagesSpec | python/sparse/model/SpQLInterpreter.py:70-72 | The list succeeds exactly when every clause compiles. Stage `k` is clause `k`'s stage. A failure is the first failing clause's error. |
| Interpreter.SpQLInterpreter.constructor | python/sparse/model/SpQLInterpreter.py:46-48 | A new interpreter has no stored clauses and the class tag `SpQLInterpreter`. |
| Interpreter.SpQLInterpreter.MongoQuery | python/sparse/model/SpQLInterpreter.py:70-72 | The loop over the stored clauses returns `MongoStages(lastQuery)`. |
| Interpreter.SpQLInterpreter.DataframeQuery | python/sparse/model/SpQLInterpreter.py:93-97 | The loop feeds each clause's output to the next clause and returns `QueryTable(t, lastQuery, ...)`. |
| Interpreter.MongoOrsFields | python/sparse/model/SpQLInterpreter.py:55-68 | Example: `name, state == active` becomes one `$or` of a `$in` leaf per field. |
| Interpreter.TableAndsColumns | python/sparse/model/SpQLInterpreter.py:82-90 | Example: in the tabular backend the same clause drops a row unless every named cell passes, and then drops the empty columns. |
| TabularBackend.Project | python/sparse/model/SpQLInterpreter.py:80 | The selected sub-table is well formed, with one row per selected row and one column per selected column. |
| TabularBackend.IndicesWhere | python/sparse/model/SpQLInterpreter.py:83-84 | Gives the positions of exactly the elements meeting the mask, increasing. |
| TabularBackend.ClauseSelectionExact | python/sparse/model/SpQLInterpreter.py:75-91 | A row survives exactly when some column is tested and every tested cell passes, so a clause that tests no column keeps no row. `['all']` keeps every column. Named fields keep exactly the columns that have a non-missing cell in a surviving row. |
| TabularBackend.ClauseErrors | python/sparse/model/SpQLInterpreter.py:83-86 | `KeyError(field_operator)` comes exactly when a column is matched against fields with an unknown field operator. `KeyError(operator)` comes exactly when a selected cell meets an unknown operator. |
| TabularBackend.ClauseIdempotent | python/sparse/model/SpQLInterpreter.py:75-91 | Applying a successful clause to its own output changes nothing when the output has no rows or still has a tested column. With `['all']` that is always so. |
| TabularBackend.ClauseNotAlwaysIdempotent | python/sparse/model/SpQLInterpreter.py:84-90 | `a != 5` on a row whose `a` is NaN keeps the row and drops column `a`. The output tests no column, so the same clause on it keeps nothing. |
| TabularBackend.AllStaysTested | python/sparse/model/SpQLInterpreter.py:76-80 | With `['all']` an output that has rows still has a tested column. |
| Interpreter.NoRowsNoColumns | python/sparse/model/SpQLInterpreter.py:88-90 | When no row survives a clause of field patterns, every column is dropped too, leaving the empty table. |
| TabularBackend.NotRegexDotStarEmpties | python/sparse/model/SpQLInterpreter.py:76-80 | `all nre .*` removes every row. |
| TabularBackend.QueryTableSelects | python/sparse/model/SpQLInterpreter.py:93-97 | The result of a successful query is the original table restricted to one valid selection of its rows and columns. |
| TabularBackend.QueryTablePassesEach | python/sparse/model/SpQLInterpreter.py:93-97 | For any query, every row of the result passes every clause on the result's columns that the clause tests. |
| TabularBackend.AllClausesIntersect | python/sparse/model/SpQLInterpreter.py:93-97 | With `['all']` clauses only, the query keeps every column and the rows that survive every clause: the clauses are ANDed. |
| Ranks.Invert | python/sparse/utilities/utils.py:259-262 | The result has the input's length. Each value is mapped to its mirror in the sorted distinct values. |
| Ranks.InvertMirrorsRank | python/sparse/utilities/utils.py:259-262 | Each output element is an input value. As many distinct values lie above it as lie below the input element. |
| Ranks.InvertReversesOrder | python/sparse/utilities/utils.py:259-262 | Input order between any two positions is reversed in the output. |
| Ranks.InvertInvolution | python/sparse/utilities/utils.py:259-262 | Inverting twice gives back the input. |
| Ranks.ReduceUnits | python/sparse/utilities/utils.py:264-269 | One output string per input element. |
| Ranks.ReduceUnitsCounts | python/sparse/utilities/utils.py:264-269 | Element `i` is `new_unit` repeated once per distinct value below it, plus `min` times. |
| Ranks.RepeatLength | python/sparse/utilities/utils.py:267 | `new_unit * n` has length `|new_unit| * n`, and is empty when `n` is not positive. |
| Ranks.ReduceUnitsOrder | python/sparse/utilities/utils.py:264-269 | Equal inputs give equal outputs. With a non-empty unit and `min >= 0`, fewer distinct values below gives a shorter output, and different inputs give outputs of different lengths. |
| Ranks.BelowCountOrder | python/sparse/utilities/utils.py:265-268 | `x < y` exactly when fewer distinct values lie below `x`. The counts are equal exactly for equal values. |
| NestedDicts.FlattenInto | python/sparse/utilities/utils.py:277-283 | The recursive walk appends the entries of `FlatPaths`, keyed by prefix plus the joined path. |
| NestedDicts.FlattenNestedDict | python/sparse/utilities/utils.py:275-289 | The result holds the flat entries with the `__null__` + separator header removed. Without key clashes it is exactly the joined paths in order. |
| NestedDicts.FlattenUnique | python/sparse/utilities/utils.py:275-289 | When no two paths join to the same key, nothing is overwritten: the result lists every flattened pair under its joined path, in order. |
| NestedDicts.NullBeforeChildren | python/sparse/utilities/utils.py:279-281 | A non-empty sub-dict is written as `null` before any of its children. |
| NestedDicts.FlatPathsReach | python/sparse/utilities/utils.py:277-283 | A path and value are flattened exactly when the path reaches that node. The value is `null` for a non-empty dict and the value itself otherwise. |
| NestedDicts.SetPath | python/sparse/utilities/utils.py:318-325 | Setting one row's value gives a dict on success. The only failure is `TypeError`. |
| NestedDicts.MatrixToNestedDict | python/sparse/utilities/utils.py:312-326 | The loop over the rows equals the fold `Build` of `SetPath` from `{}`. |
| NestedDicts.SetPathFails | python/sparse/utilities/utils.py:319-325 | The row fails exactly when a proper prefix of its key path reaches a leaf. |
| NestedDicts.SetPathReaches | python/sparse/utilities/utils.py:318-325 | After a successful row, its key path reaches its value. |
| NestedDicts.SetPathFrame | python/sparse/utilities/utils.py:318-325 | Every path that diverges from the row's keys reaches the same node as before. |
| NestedDicts.RowPersists | python/sparse/utilities/utils.py:312-326 | A row's value is in the result when no later row's keys diverge from it. |
| NestedDicts.BuildWellKeyed | python/sparse/utilities/utils.py:312-326 | The built dict has no repeated key at any level. |
| NestedDicts.Interpret | python/sparse/utilities/utils.py:328-336 | The result is a dict with the same keys in the same order. |
| NestedDicts.InterpretInto | python/sparse/utilities/utils.py:329-335 | The recursive helper assigns the interpreted entries over the cursor. |
| NestedDicts.InterpretNestedDict | python/sparse/utilities/utils.py:328-336 | Returns the interpreted dict and the input's state after the in-place overwrite of its non-empty sub-dicts. |
| NestedDicts.Touched | python/sparse/utilities/utils.py:331-332 | The input keeps its keys. Leaves are unchanged and non-empty sub-dicts are replaced by their interpretation. |
| NestedDicts.InterpretReach | python/sparse/utilities/utils.py:328-336 | Every path of the input reaches the predicate of its leaf, or the interpretation of its sub-dict. |
| Records.AfterStack | python/sparse/utilities/utils.py:341-342 | With `remove_key` the record loses exactly that key. Otherwise it is unchanged. |
| Records.StackDict | python/sparse/utilities/utils.py:338-344 | Fails with `KeyError(key)` exactly when the key is missing. Otherwise gives one entry keyed `str(item[key])` holding the record. |
| Records.ListDictToDict | python/sparse/utilities/utils.py:346-353 | Fails with `KeyError(key)` at the first record lacking the key. Otherwise gives the assignments of every stacked record in order, plus the records' after-states. |
| Records.ListDictToDictLookup | python/sparse/utilities/utils.py:346-353 | The keys are the `str()` of the records' key values, without repeats. Each maps to the last record with that value. |
| Records.PrefixInto | python/sparse/utilities/utils.py:361-364 | Writes every entry under `prefix + '_' + str(k)`. |
| Records.MergeRowContents | python/sparse/utilities/utils.py:359-365 | Target columns hold target values. Source columns hold source values unless a target column has the same name. The row has exactly the keys of both. |
| Records.MergeRowsSpec | python/sparse/utilities/utils.py:359-366 | Succeeds exactly when the target has every source key. Row `i` merges source entry `i`. A failure is `KeyError` of the first missing key. |
| Records.MergeListDicts | python/sparse/utilities/utils.py:355-366 | The loop gives the source stacking error, then the target's, then the row merge. |
| Records.JoinRows | python/sparse/utilities/utils.py:358-366 | The row loop yields the rows `MergeRows` specifies, in source order, or `KeyError` at the first source key the target lacks. |
| Luts.RemoveEach | python/sparse/utilities/utils.py:440-441 | Removing each element of one list from a copy leaves the multiset difference. |
| Luts.AsWrittenLeavesNothing | python/sparse/utilities/utils.py:439-442 | The duplicate check as written always leaves an empty list. |
| Luts.AsWrittenMissesDuplicate | python/sparse/utilities/utils.py:439-444 | A table with a repeated value still gives an empty check list, so no warning. |
| Luts.DuplicatesIffRepeat | python/sparse/utilities/utils.py:439-451 | The corrected check is empty exactly when no value repeats. |
| Luts.LutWarningsSpec | python/sparse/utilities/utils.py:439-451 | There is no warning exactly when both tables have distinct values. |
| Luts.ReverseFindsKey | python/sparse/utilities/utils.py:454 | The reverse table maps a value to the key of the last entry holding it. It finds nothing exactly when no entry holds the value. |
| Luts.TranslateMiss | python/sparse/utilities/utils.py:456-460 | An item that is no input value is kept. |
| Luts.TranslateHit | python/sparse/utilities/utils.py:456-460 | An input value becomes the output value under the last key holding it. |
| Luts.TranslateDistinct | python/sparse/utilities/utils.py:454-460 | With no warnings, each input value becomes the output value under its own key. |
| Luts.TranslateAll | python/sparse/utilities/utils.py:455-461 | The loop translates every item in order. |
| Luts.DoubleLutTransform | python/sparse/utilities/utils.py:434-461 | Different key lists give `KeyError('input lut keys do not match output lut keys')`. Otherwise the items are translated and the corrected warnings are returned. |

## Left out

- The SpQL grammar and `SpQLParser` are not part of this model. The stored clause list `lastQuery` is a field that callers set.
- `SpQLInterpreter(name)`: the `name` argument and the parser state are not modelled.
- Regular expressions are not modelled. `re.search` is a parameter `search(pattern, text, ignoreCase)`, and only properties that hold for every engine are proved.
- The tabular backend does not run as written:
  - it uses `mas` for `mask` and `toList()` for `tolist()`;
  - `numpy` and `bool_test` are not imported;
  - `dataframe_query` is a `@property` with arguments.
  The model follows the evident intent of each of these.
- `TabularBackend`: a data frame is column names plus rows of cells. The index labels are not kept; rows are positions, and a selection keeps the original order. Column dtypes, a duplicate column name and a MultiIndex are not modelled.
- Python 2 dict iteration order (hash order) is replaced by insertion order throughout. Assigning to an existing key keeps its position.
- Dict keys are strings and values are `Int`, `Str` or `Missing`. Floats, NaN inside `invert`/`reduce_units` (where `Present` excludes it), tuples and other hashables are not modelled.
- `Ranks.Invert`, `Ranks.ReduceUnits`: only lists without NaN. With NaN, `sorted(set(...))` has no defined order.
- `Ranks.ReduceUnits`: `new_unit` is a string. A list or another sequence that Python can repeat with `*` is not modelled.
- Regular expressions: an invalid pattern raises `re.error` in Python. The parameter `search` returns a boolean for every pattern, so that error cannot arise in the model.
- `TabularBackend.ClauseIdempotent`: holds only when the output has no rows or still tests some column. With named fields a clause can keep rows while its tested columns are all dropped as empty; `TabularBackend.ClauseNotAlwaysIdempotent` gives such a table.
- `TabularBackend.QueryTablePassesEach`: a row of the result is not promised to survive each clause again, because the result may no longer hold any column a clause tests: `TabularBackend.ClauseNotAlwaysIdempotent` gives a one-clause query whose result keeps a row but none of the clause's columns.
- `NestedDicts.SetPath`: the cursor loop of `matrix_to_nested_dict` is modelled as a function that updates one path. An intermediate key that holds a leaf raises `TypeError`.
- `NestedDicts.MatrixToNestedDict`: matrix cells are strings, so every value is a string leaf. A row shorter than two cells raises `IndexError`.
- `NestedDicts.InterpretNestedDict`: the input's in-place overwrite is returned as an after-state. Aliasing is not captured; the same dict object under two keys is modelled as two copies.
- `Records.StackDict`, `Records.ListDictToDict`: `del item[key]` mutates the caller's records. The model returns the records' after-state instead.
- `Records.MergeListDicts`: the records' after-states are not returned.
- `Records.ListDictToDict`, `Records.MergeListDicts`: records are values, so aliasing is not captured. With `remove_key`, the same record object listed twice loses its key at the first visit and raises `KeyError` at the second, and `merge_list_dicts` fails the same way when source and target share records. The model copies each record and raises neither.
- `Luts.DoubleLutTransform`:
  - `warnings.warn` is not called; the warning texts are returned;
  - the key lists are compared in insertion order.
- The rest of `utils.py` is outside the core: type conversion, string helpers, `nested_dict_to_matrix`, `irregular_concat`, `list_to_lut` and the other framework glue.

## Findings

| source | as written | input that shows it | evidently intended | confidence | as-written member | corrected member |
|---|---|---|---|---|---|---|
| python/sparse/utilities/utils.py:439-451 | Every value is removed from a copy of the same value list, so the list is always empty and no duplicate warning is ever issued | `input_lut = {'a': 'x', 'b': 'x'}` | Warn, naming the repeated values, when a table maps two keys to the same value | not executed | Luts.AsWrittenMissesDuplicate | Luts.DuplicatesIffRepeat |
