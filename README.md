# Schema evolution analyzer — a verified model of the analysis pipeline

This project models the decision logic of the schema evolution analyzer in Dafny.
The analyzer takes two versions of a database schema document and, optionally, a list of SQL queries. It does five things:

- It validates both documents against a fixed JSON Schema shape (`SchemaValidator`).
- It diffs them into typed change records (`DiffGenerator`).
- It folds the changes into an impact assessment: severity, breaking changes, data-loss risk and migration complexity (`ImpactAnalyzer`).
- It checks the queries' table and column references against the new schema (`QueryValidator`).
- It derives prioritised recommendations and assembles the report (`SchemaAnalyzer`).

Files:

- `wrappers.dfy`: `Option`, `Result` and `Outcome`.
- `json_values.dfy`: JSON values, plus a generic checker for the JSON Schema keywords the shape uses (`type`, `required`, `properties`, `items`).
- `schemas.dfy`: schema documents read as tables and columns, and the name-indexed dictionaries (`{t['name']: t for t in ...}`, where the last entry wins).
- `schema_validator.dfy`: the shape constant, an explicit reading of it, `validate`, and decoding of an accepted document.
- `seq_util.dfy`: sequence facts used by the proofs.
- `diff_generator.dfy`, `impact_analyzer.dfy`, `query_validator.dfy` and `analyze.dfy`: one module per source file.

The imperative parts keep their loops:

- `generate_diff` appends to a list in nested loops over set differences and intersections.
- `analyze_impact` updates counters and the fields of the impact record.
- `validate_queries` and the extraction helpers append per-query results and errors.
- `_generate_recommendations` appends recommendations.

Each of these methods is proved against a specification function or set. The properties of those functions are then proved as lemmas.

Python iterates over sets in an order the program does not fix. `GenerateDiff` therefore picks each element arbitrarily (`:|`). Its result is specified as:

- the set `Changes(old, new)` of records, without repetition;
- the ordering rules that the loop nesting does guarantee:
  - table records come before column records, and removed tables before added ones;
  - one table's column records are contiguous, with removed columns before added ones before modified ones;
  - for one column, the type record comes before the nullability record, and the two are adjacent.

## Model

| member | source | states |
|---|---|---|
| SchemaValidator.SchemaDefinitionExact | schema_analyzer/utills/schema_validator.py:12-44 | Generic JSON Schema checking against the shape constant accepts a document exactly when it satisfies the explicit rules: an object with a `tables` array (lines 13-17); each table an object with string `name` and array `columns` (18-24); each column an object with string `name` and `type` (26-30); an optional boolean `nullable`, a string/number/null `default`, and an array of strings `constraints` (31-36) |
| SchemaValidator.ColumnShapeExact | schema_analyzer/utills/schema_validator.py:25-37 | A column conforms to the column shape exactly when it meets the column rules, optional fields included |
| SchemaValidator.TableShapeExact | schema_analyzer/utills/schema_validator.py:18-39 | A table conforms to the table shape exactly when it has a string name and every column entry is a valid column |
| SchemaValidator.ConstraintsShapeExact | schema_analyzer/utills/schema_validator.py:33-36 | `constraints` conforms exactly when it is an array of strings |
| SchemaValidator.ExtraColumnFieldAccepted | schema_analyzer/utills/schema_validator.py:25-37 | Adding any key the column shape does not list keeps a column accepted; no closed-properties rule exists |
| SchemaValidator.ExtraTableFieldAccepted | schema_analyzer/utills/schema_validator.py:18-40 | The same for tables |
| SchemaValidator.ExtraDocumentFieldAccepted | schema_analyzer/utills/schema_validator.py:12-44 | The same for the document |
| SchemaValidator.DuplicateTablesAccepted | schema_analyzer/utills/schema_validator.py:12-44 | A document listing the same valid table twice passes validation: duplicate names are not rejected |
| SchemaValidator.DuplicateColumnsAccepted | schema_analyzer/utills/schema_validator.py:18-39 | A table listing the same valid column twice conforms to the table shape: duplicate column names are not rejected |
| SchemaValidator.Validate | schema_analyzer/utills/schema_validator.py:46-61 | `validate` depends only on its argument; it passes exactly when the document is valid and fails with the shape error otherwise |
| SchemaValidator.ColumnOf | schema_analyzer/utills/diff_generator.py:70-88 | Reading a valid column keeps the whole definition, and `nullable` is present exactly when the key is (`get('nullable')`) |
| SchemaValidator.TableOf | schema_analyzer/utills/diff_generator.py:48-49 | Reading a valid table keeps one column per entry of `columns` |
| SchemaValidator.SchemaOf | schema_analyzer/utills/diff_generator.py:29-30 | Reading a valid document keeps one table per entry of `tables` |
| Schemas.ByName | schema_analyzer/utills/diff_generator.py:29-30 | The name dictionary's keys are exactly the names of the entries, and each key maps to an entry with that name |
| Schemas.ByNameLastWins | schema_analyzer/utills/diff_generator.py:48-49 | With duplicate names, the last definition is the one the dictionary holds |
| DiffGenerator.ChangesExact | schema_analyzer/utills/diff_generator.py:32-89 | A record is in the diff exactly when its kind's rule holds. A table is removed (added) when it is in old (new) only. A column is removed or added when it is on one side only of a table on both sides; `column_added` carries the new definition. A type change means both sides' type strings differ exactly, and it carries them verbatim. A nullability change means the optional flags differ |
| DiffGenerator.ColumnChangesExact | schema_analyzer/utills/diff_generator.py:51-89 | The same rule for the column records of one common table |
| DiffGenerator.ChangesWellFounded | schema_analyzer/utills/diff_generator.py:47-89 | Every record names a table of old or new. A column record names a table of both sides, and a column of it present on at least one side |
| DiffGenerator.SelfDiffEmpty | schema_analyzer/utills/diff_generator.py:29-89 | Diffing a schema against itself yields no record |
| DiffGenerator.MirrorInto | schema_analyzer/utills/diff_generator.py:32-89 | Each record of `diff(a, b)` turns into a record of `diff(b, a)` with added/removed swapped and old/new values exchanged; mirroring back restores it |
| DiffGenerator.SwapDiff | schema_analyzer/utills/diff_generator.py:32-89 | `diff(b, a)` is exactly the mirror image of `diff(a, b)` |
| DiffGenerator.SwapDiffCount | schema_analyzer/utills/diff_generator.py:32-89 | Both directions contain the same number of records |
| DiffGenerator.NullableAbsentVsFalse | schema_analyzer/utills/diff_generator.py:82-89 | For any column of a table on both sides, an absent `nullable` on the old side against an explicit `false` on the new side yields a nullability record, and it is that column's only one |
| DiffGenerator.InterleavedModificationsExcluded | schema_analyzer/utills/diff_generator.py:69-89 | Listing two columns' type records ahead of their nullability records breaks the adjacency `GenerateDiff` guarantees |
| DiffGenerator.EmitEach | schema_analyzer/utills/diff_generator.py:33-44 | The loop over a set difference emits one record per name, each exactly once |
| DiffGenerator.DiffModifiedColumns | schema_analyzer/utills/diff_generator.py:69-89 | The loop over common columns emits exactly their type and nullability changes, without repetition, with a column's type change before its nullability change and the two adjacent |
| DiffGenerator.DiffColumns | schema_analyzer/utills/diff_generator.py:48-89 | One common table yields exactly its column records, without repetition: removed, then added, then modified columns, with each column's modification records adjacent |
| DiffGenerator.GenerateDiff | schema_analyzer/utills/diff_generator.py:11-92 | The list holds every record of the diff exactly once. Table records come first, removed before added. Column records of one table are contiguous, removed before added before modified, and, per column, the type record before the nullability record and adjacent to it |
| DiffGenerator.DiffListSize | schema_analyzer/utills/diff_generator.py:26-92 | The list's length is the number of records in the diff; a schema diffed against itself yields the empty list |
| ImpactAnalyzer.AnalyzeImpact | schema_analyzer/utills/impact_analyzer.py:11-70 | The counting loop and the threshold rules compute `ImpactOf(changes)`: severity from the breaking and complex counters, the breaking references, data-loss risk, an empty performance list, and complexity from the complex counter |
| ImpactAnalyzer.SeverityExact | schema_analyzer/utills/impact_analyzer.py:35-54 | Severity is high exactly when some change is breaking (`table_removed`, `column_removed`, `column_type_changed`); it is never medium |
| ImpactAnalyzer.ComplexAtMostBreaking | schema_analyzer/utills/impact_analyzer.py:35-48 | There are never more complex changes than breaking ones, because every complex kind is breaking |
| ImpactAnalyzer.DataLossExact | schema_analyzer/utills/impact_analyzer.py:43-57 | Data-loss risk holds exactly when some table or column is removed |
| ImpactAnalyzer.ComplexityExact | schema_analyzer/utills/impact_analyzer.py:47-63 | With k the number of type changes plus removed tables: high when k > 3, medium when 1 <= k <= 3, low when k = 0 |
| ImpactAnalyzer.BreakingRefsExact | schema_analyzer/utills/impact_analyzer.py:35-40 | `breaking_changes` has one entry per breaking change, in input order; each holds the type tag and `table.column`, with an empty column for table records |
| ImpactAnalyzer.BreakingRefsLength | schema_analyzer/utills/impact_analyzer.py:35-40 | `breaking_changes` has as many entries as there are breaking changes |
| ImpactAnalyzer.CountPositive | schema_analyzer/utills/impact_analyzer.py:33-48 | A counter is positive exactly when some change of its kinds occurs |
| ImpactAnalyzer.CountAppend | schema_analyzer/utills/impact_analyzer.py:33-48 | Counters add up over concatenated change lists |
| ImpactAnalyzer.AppendNeverLowers | schema_analyzer/utills/impact_analyzer.py:33-63 | Appending changes never lowers severity, complexity or data-loss risk |
| ImpactAnalyzer.NeutralChangeIgnored | schema_analyzer/utills/impact_analyzer.py:21-48 | An added table, an added column or a nullability change leaves the whole assessment unchanged |
| QueryValidator.SplitDot | schema_analyzer/utills/query_validator.py:90 | `split('.')` yields at least one piece, and no piece contains a dot |
| QueryValidator.JoinSplit | schema_analyzer/utills/query_validator.py:90 | Joining the pieces with dots gives back the name |
| QueryValidator.SplitJoin | schema_analyzer/utills/query_validator.py:90 | Splitting dot-free pieces joined with dots gives back the pieces |
| QueryValidator.ColumnReferenceExact | schema_analyzer/utills/query_validator.py:90-92 | A name is the column reference `(t, c)` exactly when it is `t.c` with `t` and `c` dot-free |
| QueryValidator.ColumnReferencesExact | schema_analyzer/utills/query_validator.py:81-93 | A pair is extracted exactly when some identifier name splits into those two pieces |
| QueryValidator.ExtractColumnReferences | schema_analyzer/utills/query_validator.py:81-93 | The extraction loop keeps, in order, the names that split into exactly two pieces, as pairs |
| QueryValidator.ValidateQuery | schema_analyzer/utills/query_validator.py:31-62 | One query's result is `CheckQuery`. A parse failure gives one parsing-error entry. Otherwise the table errors for unknown names come first, then the column errors for known tables that lack the column; `is_valid` is cleared with every error |
| QueryValidator.ValidateQueries | schema_analyzer/utills/query_validator.py:12-70 | One result per query, in order, each depending only on its own query and the schema's last-wins table dictionary |
| QueryValidator.TableErrorsExact | schema_analyzer/utills/query_validator.py:46-49 | A table error is reported exactly for a referenced name missing from the schema |
| QueryValidator.ColumnErrorsExact | schema_analyzer/utills/query_validator.py:52-58 | A column error is reported exactly for a reference whose table exists and lacks the column |
| QueryValidator.TableErrorsLength | schema_analyzer/utills/query_validator.py:46-49 | There is one table error per occurrence of an unknown name, repeats included |
| QueryValidator.TableErrorsPosition | schema_analyzer/utills/query_validator.py:46-49 | The unknown name at position i is reported at the position given by the number of unknown names before it, so errors follow reference order |
| QueryValidator.ColumnErrorsLength | schema_analyzer/utills/query_validator.py:52-58 | There is one column error per reference whose table exists and lacks the column, repeats included |
| QueryValidator.ColumnErrorsPosition | schema_analyzer/utills/query_validator.py:52-58 | The missing column at position i is reported at the position given by the number of missing columns before it |
| QueryValidator.ValidIffNoErrors | schema_analyzer/utills/query_validator.py:31-62 | `is_valid` is false exactly when `errors` is non-empty; a parse failure always leaves an error |
| QueryValidator.ValidExact | schema_analyzer/utills/query_validator.py:37-62 | A query is valid exactly when it parses, every identifier names a table, and every `t.c` identifier with a known `t` names a column of it; no identifiers means valid |
| QueryValidator.TableErrorsFirst | schema_analyzer/utills/query_validator.py:45-58 | Every error is a table or a column error, and no table error follows a column error |
| QueryValidator.PrefixesExclusive | schema_analyzer/utills/query_validator.py:49-58 | A message cannot be both a table error and a column error |
| QueryValidator.DottedThenBareReferences | schema_analyzer/utills/query_validator.py:81-93 | The identifiers `t.c` then `t`, both pieces dot-free, yield the single column reference `(t, c)` |
| QueryValidator.DottedNameReportedAsTable | schema_analyzer/utills/query_validator.py:46-58 | Every identifier is checked as a table. A query naming `t.c` and `t`, with `t` having column `c`, is invalid with exactly the error "table `t.c` not found" |
| Analyze.RecommendationFor | schema_analyzer/analyze.py:91-112 | A change yields at most one recommendation, and one exactly when it is breaking. It is never `testing`, and its priority is high exactly for removals |
| Analyze.GenerateRecommendations | schema_analyzer/analyze.py:83-121 | The loop computes the per-change recommendations in change order, followed by `testing` when severity is high |
| Analyze.PerChangeShape | schema_analyzer/analyze.py:91-112 | There is one per-change recommendation per breaking change, and none of them is `testing` |
| Analyze.RecommendationsLength | schema_analyzer/analyze.py:89-121 | The length is the number of matching changes, plus one when severity is high |
| Analyze.RecommendationPosition | schema_analyzer/analyze.py:91-112 | The recommendation for the breaking change at position i comes after those for the breaking changes before it |
| Analyze.TestingLastIffHigh | schema_analyzer/analyze.py:114-119 | A `testing` entry is present exactly when severity is high, and it is then the last entry and the only one |
| Analyze.NonEmptyIffBreaking | schema_analyzer/analyze.py:91-119 | With the analyzer's own impact, there are recommendations exactly when some change is breaking |
| Analyze.ValidDocumentCounted | schema_analyzer/analyze.py:43-45 | For a valid document, the opening log line's `len(doc.get('tables', []))` does not raise, and it is the number of tables |
| Analyze.ScalarTablesRaiseTypeError | schema_analyzer/analyze.py:43-49 | A document whose `tables` is a number, a boolean or null is invalid, yet it raises `TypeError` from the table count before validation runs |
| Analyze.AnalyzeSchemaChanges | schema_analyzer/analyze.py:26-81 | The analysis fails with no report exactly when either document is invalid. The old document's table count is taken first, then the new one's. A count that raises (`AttributeError` for a non-object, `TypeError` for a `tables` value without a length) is the error. Otherwise the error is the shape error from validation. Otherwise the report holds the time stamp given, the diff of the decoded schemas with its ordering, that diff's impact, and the recommendations for both. It has query results (one per query, checked against the new schema) exactly when a non-empty query list was given |

## Left out

- Logging through `structlog`, and the `async`/`await` structure: the calls are modelled as plain sequential calls. The one exception is the table counts that the opening log line computes before validation (`schema_analyzer/analyze.py:43-45`). They can raise, so they are modelled (`TablesCount`).
- The time stamp `datetime.utcnow().isoformat()` (`schema_analyzer/analyze.py:68`): it is a parameter of `AnalyzeSchemaChanges`.
- SQL tokenisation by `sqlparse` (`parse(query)[0]`, `flatten()`, the `Identifier` filter, `get_name()`): it is the parameter `parse`. For each query, `parse` gives the identifier names in token order, or the text of the exception raised.
  - `_extract_table_references` returns those names unchanged, so the model uses the name list directly.
  - Only the `split('.')` rule is modelled as a string function.
- The `jsonschema` library is replaced by the generic checker `Conforms` for the four keywords the shape uses.
- Validate: the error carries no message text. Which document failed is not distinguished either, because the error `validate` re-raises is only reported, never inspected.
- JSON numbers are reals, with no floating-point rounding.
- GenerateDiff: the order of tables across the diff, and of names within one set difference, is left arbitrary. This is because Python's set iteration order is not determined by the program. The contract pins down the contents, the absence of repetition, and the orderings listed at the top of this file.
- Schema documents are assumed to be decoded from validated JSON. The model therefore does not cover the `KeyError` that the diff would raise on unvalidated input.
- Storage, logging configuration, security, metrics, the load-test harness and packaging (`storage.py`, `logging.py`, `security.py`, `metrics.py`, `tests/performance/locustfile.py`, `setup.py`) are not part of this model: they are I/O and foreign services.
- Validation does not reject duplicate table or column names, and the dictionaries keep the last definition (`DuplicateTablesAccepted`, `DuplicateColumnsAccepted`, `ByNameLastWins`).
- Every identifier is checked as a table name, dotted ones included (`DottedNameReportedAsTable`).
- The metrics decorator's count of errors by exception type is not modelled (`schema_analyzer/metrics.py` is not part of this model).
- `schema_analyzer/analyze.py` imports its helpers from `.utils`, while the files live in `utills/`. The model treats these as the same modules.
