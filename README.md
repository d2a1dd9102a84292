# A verified model of the haole ERP shim and its vendored JavaScript type checker

This project models two pieces of one repository in Dafny and proves properties of them.

The first piece is the Python ERP shim (`haole_erp/`). Its pure logic is modelled:
- the batch-insert row preparation of the insert handler: drop `id`, skip incomplete rows, collect tuples in each row's own key order, and build the column list and placeholders;
- the query handler's loop, in which only the last argument's result survives;
- the JSON serializer: zip rows with column names, wrap them under `"data"`, and format dates and datetimes.

The second piece is `eschecker`, a static type checker for JavaScript that the Node project vendors. Its core is modelled:
- the type lattice: base, Maybe, function, record, array and type-variable types, with `same`, `equals`, `isSubType`, `substitute` and `containsType`;
- the immutable type environment and its cascading substitution worklist;
- the unifier and its base-type unification rules;
- scopes and symbols;
- the control-flow graph, with its exit-edge search and reachable-node walk;
- the work-list data-flow analysis.

Each entity of the checker that the source creates with a lodash `uniqueId` carries an explicit natural-number id instead. A caller threads the next free id through the operations that create types.

Modules, one per file:
- `Wrappers`: Option and Result.
- `ErpToolbox` and `ErpService`: the Python shim.
- `Symbols`: the `Symbol` class.
- `Types` and `TypeLaws`: the type lattice and the laws proved about it.
- `Unification`: the unifier and its rules.
- `TypeEnvironments`: the type environment.
- `EnvironmentCascade`: the whole cascade of the environment's `substitute`, pass by pass.
- `BinaryOperators`: the binary operator refinement table.
- `Scopes`: the `Scope` class.
- `ControlFlow`: graph nodes, edges and the graph.
- `DataFlow`: the work-list analysis.

Where the code keeps mutable state, the model does too. The Python loops are methods with loop invariants. `Symbol`, `Scope`, `Node` and `ControlFlowGraph` are classes whose methods update their fields. The cached `MaybeType.of(number)` instance lives in a small class. The environment's transient-map worklist, the exit-edge search and the data-flow analysis are methods proved equal to specification functions, and the properties are proved about those functions.

## Model

| member | source | states |
|---|---|---|
| ErpToolbox.FormatDate | haole_erp/erptoolbox.py:43-44 | a date renders as ten characters "YYYY-MM-DD" with dashes at 4 and 7; a year before 1900 raises ValueError (Python 2 strftime) |
| ErpToolbox.FormatDateTime | haole_erp/erptoolbox.py:41-42 | a datetime renders as nineteen characters whose first ten are its date's rendering; the same year restriction |
| ErpToolbox.ParseDateTime | haole_erp/erp_service.py:53 | `strptime` with "%Y-%m-%d %H:%M:%S" succeeds only on text of that zero-padded shape naming a real date and time |
| ErpToolbox.ParseFormatRoundTrip | haole_erp/erp_service.py:53 | parsing the rendering of a datetime from 1900 on gives the datetime back |
| ErpToolbox.FormatParseRoundTrip | haole_erp/erp_service.py:53 | rendering a parsed datetime from 1900 on gives the parsed text back |
| ErpToolbox.Pad2Number | haole_erp/erptoolbox.py:42 | a two-digit field reads back as the number it renders |
| ErpToolbox.Pad4Number | haole_erp/erptoolbox.py:42 | a four-digit year field reads back as the year it renders |
| ErpToolbox.Pad2OfNumber | haole_erp/erp_service.py:53 | two digits read as a number render back to the same two digits |
| ErpToolbox.Pad4OfNumber | haole_erp/erp_service.py:53 | four digits read as a number render back to the same four digits |
| ErpToolbox.DaysInMonth | haole_erp/erp_service.py:53 | every month has 28 to 31 days, so a date is checked against the calendar |
| ErpToolbox.Default | haole_erp/erptoolbox.py:40-46 | `CJsonEncoder.default`: a datetime renders with its time, a date without, anything else raises TypeError |
| ErpToolbox.DefaultDateTimeBeforeDate | haole_erp/erptoolbox.py:41-44 | a datetime, which is also a date, takes the datetime branch: nineteen characters, not the date-only rendering |
| ErpToolbox.EncodeValue | haole_erp/erptoolbox.py:40-56 | a value can be written exactly when it is a JSON built-in or a date from 1900 on; strings are kept as they are (`ensure_ascii=False`); dates go through `default`; a value that cannot be written raises ValueError when it is a date (strftime before 1900) and TypeError otherwise |
| ErpToolbox.ZipDictKeys | haole_erp/erptoolbox.py:52 | `dict(zip(cols, row))` has exactly the columns that have a value, zip stopping at the shorter list |
| ErpToolbox.ZipDictAt | haole_erp/erptoolbox.py:52 | with distinct column names, each column maps to the value at its own position |
| ErpToolbox.ZippedRows | haole_erp/erptoolbox.py:51-55 | one dictionary per data row, in order |
| ErpToolbox.EncodeDict | haole_erp/erptoolbox.py:56 | a row can be written exactly when each of its values can; it keeps its keys and writes each value as `EncodeValue` does; a row that cannot be written raises an error one of its values raises, ValueError when every failing value is an old date and TypeError when none is |
| ErpToolbox.FirstUnencodable | haole_erp/erptoolbox.py:56 | the rows are written in order, so the row that raises is the first one that cannot be written: every row before it can |
| ErpToolbox.EncodeDocument | haole_erp/erptoolbox.py:56 | the dump succeeds exactly when every value of every row can be written; otherwise it raises the error of the first row that cannot be written |
| ErpToolbox.OldDatesRaiseValueError | haole_erp/erptoolbox.py:41-44 | when the only values that cannot be written are dates and datetimes before 1900, the dump raises strftime's ValueError |
| ErpToolbox.JsonFormated | haole_erp/erptoolbox.py:49-56 | the loop collects the zipped rows and dumps them under "data", as `EncodeDocument` of `ZippedRows` |
| ErpToolbox.DocumentShape | haole_erp/erptoolbox.py:49-56 | a written document is an object with the one key "data" holding one object per data row, in order |
| ErpToolbox.UnencodableValueFails | haole_erp/erptoolbox.py:46 | one value that cannot be written (an unknown type, a date before 1900) makes the whole dump raise |
| ErpService.Get | haole_erp/erp_service.py:49 | `d[key]` succeeds exactly for a key the dictionary holds |
| ErpService.Pop | haole_erp/erp_service.py:48 | `k.pop("id")` raises KeyError for a missing key, otherwise drops the key and its value and keeps the other keys in order |
| ErpService.WithoutDistinct | haole_erp/erp_service.py:48 | dropping a key keeps the keys distinct |
| ErpService.WithoutLength | haole_erp/erp_service.py:48-55 | dropping a present key leaves one key fewer |
| ErpService.Assign | haole_erp/erp_service.py:53 | assigning to an existing key keeps the key order and replaces that value only |
| ErpService.Values | haole_erp/erp_service.py:54 | the values listed in key order |
| ErpService.PyStr | haole_erp/erp_service.py:54 | `str(x)` on a unicode key succeeds exactly for ASCII text, and keeps the text |
| ErpService.ParseEnterDate | haole_erp/erp_service.py:53 | `enter_date` is parsed when it is a string of the right form; a non-string raises TypeError |
| ErpService.BuildTuple | haole_erp/erp_service.py:54 | one value per piece of the column list |
| ErpService.KeepRow | haole_erp/erp_service.py:52-54 | a kept row records its keys joined by ", " as `columns` and keeps its key order |
| ErpService.Argument | haole_erp/erp_service.py:45-56 | `arguments[name][0]`: a missing argument raises KeyError; otherwise its first value |
| ErpService.Finish | haole_erp/erp_service.py:55-57 | after the loop: no row at all leaves `k` unbound (NameError), a missing table raises KeyError, no kept row leaves `columns` unbound (NameError); the batch carries the collected tuples |
| ErpService.StepsError | haole_erp/erp_service.py:47-54 | an error raised by one row ends the loop: later rows change nothing |
| ErpService.ProcessRow | haole_erp/erp_service.py:48-54 | one loop iteration, as `Step` |
| ErpService.PrepareInsert | haole_erp/erp_service.py:45-57 | the whole handler up to the database call, as `InsertOutcome` |
| ErpService.MissingIdRaises | haole_erp/erp_service.py:48 | a row without "id" raises KeyError |
| ErpService.SkipTestCases | haole_erp/erp_service.py:49 | a row is skipped exactly when material name, vendor or count is '' (checked in that order, stopping at the first ''), and the check raises KeyError when it reaches a missing field |
| ErpService.SkippedRowContributesNothing | haole_erp/erp_service.py:49-50 | a skipped row adds no tuple and leaves `columns` as it was, but still becomes the last `k` |
| ErpService.SplitJoin | haole_erp/erp_service.py:52-54 | splitting the ", "-joined keys at ',' gives the first key as is and each later key after a space |
| ErpService.SplitNoSeparator | haole_erp/erp_service.py:54 | text without the separator splits into itself |
| ErpService.SplitAfterSeparator | haole_erp/erp_service.py:54 | splitting distributes over a separator followed by a piece without one |
| ErpService.StripSpaced | haole_erp/erp_service.py:54 | `strip()` removes the space that the join put before a key |
| ErpService.TupleOfPieces | haole_erp/erp_service.py:54 | pieces naming the keys in order give those keys' values |
| ErpService.KeyOrderTuple | haole_erp/erp_service.py:52-54 | for keys that are ASCII, free of commas and unpadded, the tuple is the row's values in key order |
| ErpService.KeptRowTuple | haole_erp/erp_service.py:48-54 | a kept row with such keys appends its values, with the parsed date, and sets `columns` to its keys without "id" |
| ErpService.StepEffect | haole_erp/erp_service.py:47-54 | each iteration makes its row, without "id", the last `k`; a kept row adds one tuple and sets `columns`, a skipped row changes neither |
| ErpService.LastRowSeen | haole_erp/erp_service.py:47-48 | after the loop `k` is bound exactly when there was a row, and holds the last row's keys without "id" |
| ErpService.OneTuplePerKeptRow | haole_erp/erp_service.py:49-54 | the loop collects one tuple per kept row |
| ErpService.LastWhereIsLast | haole_erp/erp_service.py:52 | the last matching position has no match after it, and none is found when nothing matches |
| ErpService.ColumnsOfLastKept | haole_erp/erp_service.py:52 | after the loop `columns` holds the keys of the last kept row, and is unbound when none was kept |
| ErpService.ColumnsBoundIffKept | haole_erp/erp_service.py:52-56 | `columns` is bound exactly when some row was kept |
| ErpService.PlaceholdersFromLastRow | haole_erp/erp_service.py:52-56 | the statement names the columns of the last kept row but counts its placeholders from the last row of all |
| ErpService.AllSkippedRaises | haole_erp/erp_service.py:49-56 | rows that are all skipped raise NameError for `columns` |
| ErpService.PlaceholderMismatch | haole_erp/erp_service.py:52-55 | a kept row of four columns followed by a skipped one gives a statement of four columns and one placeholder |
| ErpService.FinishCorrected | haole_erp/erp_service.py:55-57 | the corrected ending, counting placeholders from the same row as the columns, carries the collected tuples |
| ErpService.PlaceholdersMatchColumns | haole_erp/erp_service.py:52-56 | with the correction the statement has one placeholder per column of the last kept row |
| ErpService.QuerySql | haole_erp/erp_service.py:28 | the query is the fixed prefix, the argument value, and the fixed suffix |
| ErpService.QuerySqlInjective | haole_erp/erp_service.py:28 | different argument values give different queries |
| ErpService.QueryLoop | haole_erp/erp_service.py:27-29 | the loop leaves a result exactly when there was an argument |
| ErpService.QueriesSent | haole_erp/erp_service.py:27-29 | one query per argument, in order, each for the argument's first value |
| ErpService.QueryLoopError | haole_erp/erp_service.py:27-29 | a failing fetch ends the loop |
| ErpService.Query | haole_erp/erp_service.py:26-31 | the handler's result is `QueryOutcome`; on success it sent exactly `QueriesSent` |
| ErpService.LastArgumentWins | haole_erp/erp_service.py:27-30 | only the last argument's result reaches the response: every earlier one is overwritten |
| ErpService.NoArgumentRaises | haole_erp/erp_service.py:30 | a request without arguments raises NameError for `column_names` |
| Symbols.KeyName | project/erp/node_modules/_eschecker@0.0.5@eschecker/lib/semantic-model/symbol.js:64 | a member is looked up by the name given, or by the name of the symbol given |
| Symbols.Symbol.constructor | project/erp/node_modules/_eschecker@0.0.5@eschecker/lib/semantic-model/symbol.js:8-45 | a new symbol has the given name and flags, no members, no declarations and no references |
| Symbols.Symbol.GetMember | project/erp/node_modules/_eschecker@0.0.5@eschecker/lib/semantic-model/symbol.js:63-66 | a member is found exactly when the symbol has one under that name, and it is the one stored there |
| Symbols.Symbol.AddMember | project/erp/node_modules/_eschecker@0.0.5@eschecker/lib/semantic-model/symbol.js:51-56 | adding succeeds exactly when no member of that name exists, and then stores the symbol under its name; a refused addition changes nothing |
| Symbols.Symbol.Reference | project/erp/node_modules/_eschecker@0.0.5@eschecker/lib/semantic-model/symbol.js:86-88 | the node joins the references and nothing else changes |
| Symbols.MemberBySymbolIsByName | project/erp/node_modules/_eschecker@0.0.5@eschecker/lib/semantic-model/symbol.js:63-76 | looking a member up by a symbol is looking it up by that symbol's name |
| Symbols.VariableFlags | project/erp/node_modules/_eschecker@0.0.5@eschecker/lib/semantic-model/symbol.js:106 | a flag set has a variable flag exactly when it is function-scoped or block-scoped |
| Symbols.ComputedClassification | project/erp/node_modules/_eschecker@0.0.5@eschecker/lib/semantic-model/symbol.js:100-118 | the shared computed symbol tests as computed, and plain properties, variables and functions do not |
| Types.Same | project/erp/node_modules/_eschecker@0.0.5@eschecker/lib/semantic-model/types/type.js:130-132 | two types are the same instance exactly when their ids agree |
| Types.IndexOf | project/erp/node_modules/_eschecker@0.0.5@eschecker/lib/semantic-model/types/record-type.js:84 | the position of the first property of that member name, and none when no property has it (members compare by name) |
| Types.Lookup | project/erp/node_modules/_eschecker@0.0.5@eschecker/lib/semantic-model/types/record-type.js:112 | the stored type of the property of that name, and nothing when there is none |
| Types.OccursIn | project/erp/node_modules/_eschecker@0.0.5@eschecker/lib/semantic-model/types/type.js:92-94 | `occursIn` is `containsType` with the arguments swapped |
| Types.Equals | project/erp/node_modules/_eschecker@0.0.5@eschecker/lib/semantic-model/types/type.js:141-147 | two types other than a type variable are equal only when they are of the same class |
| Types.TypeParameters | project/erp/node_modules/_eschecker@0.0.5@eschecker/lib/semantic-model/types/maybe-type.js:40-42 | a Maybe's one parameter is its element type; a function's are its this type, its return type, then its parameters |
| Types.WithTypeParameters | project/erp/node_modules/_eschecker@0.0.5@eschecker/lib/semantic-model/types/maybe-type.js:44-48 | a Maybe is rebuilt only from exactly one parameter and a function from at least two; the result has the same kind, the given id and the given parameters, and a function keeps its declaration and environment |
| Types.MaybeOf | project/erp/node_modules/_eschecker@0.0.5@eschecker/lib/semantic-model/types/maybe-type.js:21-27 | every Maybe of a number is the one shared instance; any other type gets a new Maybe of itself |
| Types.ArrayOf | project/erp/node_modules/_eschecker@0.0.5@eschecker/lib/semantic-model/types/array-type.js:29-31 | a new array of the element type without properties |
| Types.FunctionOf | project/erp/node_modules/_eschecker@0.0.5@eschecker/lib/semantic-model/types/function-type.js:18-58 | a function type whose parameters are this type, return type and parameter types |
| Types.WithProperties | project/erp/node_modules/_eschecker@0.0.5@eschecker/lib/semantic-model/types/record-type.js:193-195 | the same class over the new properties and id; an array keeps its element type |
| Types.RecordGetType | project/erp/node_modules/_eschecker@0.0.5@eschecker/lib/semantic-model/types/record-type.js:107-113 | a computed member has type Any; any other member the stored type, if any |
| Types.HasProperty | project/erp/node_modules/_eschecker@0.0.5@eschecker/lib/semantic-model/types/array-type.js:84-90 | as written, an array admits exactly what it admits with `splice` dropped from the built-ins, plus the name `splice` |
| Types.ArrayBuiltInType | project/erp/node_modules/_eschecker@0.0.5@eschecker/lib/semantic-model/types/array-type.js:104-159 | the built-in switch has a signature exactly for the listed names other than `splice`; every other name fails the assertion of its default case |
| Types.GetTypeAmong | project/erp/node_modules/_eschecker@0.0.5@eschecker/lib/semantic-model/types/array-type.js:92-102 | over a given built-in list: an element access gives the element type, a built-in name its signature exactly when the switch has one, any other name the stored property; a record answers as `RecordGetType` |
| Types.GetType | project/erp/node_modules/_eschecker@0.0.5@eschecker/lib/semantic-model/types/array-type.js:92-102 | as written: an array answers element accesses (computed or numeric names) with its element type, fails the built-in switch's assertion on the listed name `splice`, and answers other non-built-in names as a record; a record answers as `RecordGetType` |
| Types.ReplaceAt | project/erp/node_modules/_eschecker@0.0.5@eschecker/lib/semantic-model/types/record-type.js:130 | the property at one position is replaced and the others kept |
| Types.AddProperty | project/erp/node_modules/_eschecker@0.0.5@eschecker/lib/semantic-model/types/record-type.js:94-100 | adding succeeds exactly when the property is absent, and appends it keeping the id |
| Types.SetProperty | project/erp/node_modules/_eschecker@0.0.5@eschecker/lib/semantic-model/types/record-type.js:121-131 | `Map.set` by member name: an existing entry is replaced in place, a new one appended |
| Types.RecordSetType | project/erp/node_modules/_eschecker@0.0.5@eschecker/lib/semantic-model/types/record-type.js:121-131 | the property must exist; a computed member yields Any; otherwise the property is set and the id kept |
| Types.SetType | project/erp/node_modules/_eschecker@0.0.5@eschecker/lib/semantic-model/types/array-type.js:161-169 | an array refuses every listed built-in name, `splice` included, answers an element access with an array of the new element type and the same properties and id, and sets other names as a record |
| Types.SubTypeOfUndefined | project/erp/node_modules/_eschecker@0.0.5@eschecker/lib/semantic-model/types/parametrized-type.js:33 | a missing partner in the zipped type parameters is accepted only by type variables, Any and Void; every other class throws |
| Types.IsSubType | project/erp/node_modules/_eschecker@0.0.5@eschecker/lib/semantic-model/types/parametrized-type.js:31-37 | Any, Void and type variables accept everything; a yes from any other class but Maybe means the other type is of the same class; only parametrized and record types can throw |
| Types.Substitute | project/erp/node_modules/_eschecker@0.0.5@eschecker/lib/semantic-model/types/type.js:102-108 | the replacement where the type is the same instance as the old type; otherwise the same kind and id |
| Types.SubstituteAsWritten | project/erp/node_modules/_eschecker@0.0.5@eschecker/lib/semantic-model/types/array-type.js:58-70 | `substitute` as written, at every depth: the replacement for the same instance, otherwise the same kind and id; an array whose element type changes keeps its old, unsubstituted properties |
| Types.SubstituteList | project/erp/node_modules/_eschecker@0.0.5@eschecker/lib/semantic-model/types/parametrized-type.js:56-57 | each type parameter substituted in its place |
| Types.SubstituteProperties | project/erp/node_modules/_eschecker@0.0.5@eschecker/lib/semantic-model/types/record-type.js:138-146 | each property keeps its member and position and has its type substituted |
| Types.Fresh | project/erp/node_modules/_eschecker@0.0.5@eschecker/lib/semantic-model/types/type.js:71-73 | a base type is its own fresh instance; a type variable becomes a new variable; parametrized and record types are rebuilt over the same parts with the new id |
| Types.MaybeTypeCache.constructor | project/erp/node_modules/_eschecker@0.0.5@eschecker/lib/semantic-model/types/maybe-type.js:21-23 | the cache starts without a Maybe of number |
| Types.MaybeTypeCache.Of | project/erp/node_modules/_eschecker@0.0.5@eschecker/lib/semantic-model/types/maybe-type.js:21-27 | the first Maybe of a number is created and cached, and every later request returns the cached one; other types get a new Maybe and leave the cache alone |
| TypeLaws.NameSetSize | project/erp/node_modules/_eschecker@0.0.5@eschecker/lib/semantic-model/types/record-type.js:184 | a property list with distinct names has as many names as entries, which `Immutable.is` relies on when it compares map sizes |
| TypeLaws.IndexOfDistinct | project/erp/node_modules/_eschecker@0.0.5@eschecker/lib/semantic-model/types/record-type.js:112 | with distinct names, looking up an entry's own name finds that entry |
| TypeLaws.NamesCovered | project/erp/node_modules/_eschecker@0.0.5@eschecker/lib/semantic-model/types/record-type.js:184 | two equal-sized maps where every key of one is in the other have the same keys |
| TypeLaws.EqualsReflexive | project/erp/node_modules/_eschecker@0.0.5@eschecker/lib/semantic-model/types/type.js:141-147 | every well-formed type equals itself, through parameters, properties and element types |
| TypeLaws.PropertiesEqualReflexive | project/erp/node_modules/_eschecker@0.0.5@eschecker/lib/semantic-model/types/record-type.js:179-185 | a well-formed property map equals itself |
| TypeLaws.EqualsSymmetric | project/erp/node_modules/_eschecker@0.0.5@eschecker/lib/semantic-model/types/parametrized-type.js:86-96 | `equals` is symmetric on well-formed types whose ids each name one class |
| TypeLaws.PropertiesEqualSymmetric | project/erp/node_modules/_eschecker@0.0.5@eschecker/lib/semantic-model/types/record-type.js:184 | property-map equality is symmetric |
| TypeLaws.EqualsTransitive | project/erp/node_modules/_eschecker@0.0.5@eschecker/lib/semantic-model/types/type.js:141-147 | `equals` is transitive on types whose ids each name one class |
| TypeLaws.PropertiesEqualTransitive | project/erp/node_modules/_eschecker@0.0.5@eschecker/lib/semantic-model/types/record-type.js:184 | property-map equality is transitive |
| TypeLaws.EqualsImpliesSubType | project/erp/node_modules/_eschecker@0.0.5@eschecker/lib/semantic-model/types/type.js:63-65 | a well-formed type accepts every well-formed type equal to it as a subtype |
| TypeLaws.SubTypesOfEqualLists | project/erp/node_modules/_eschecker@0.0.5@eschecker/lib/semantic-model/types/parametrized-type.js:31-37 | pairwise equal parameter lists are pairwise subtypes |
| TypeLaws.PropertiesSubTypesOfEqual | project/erp/node_modules/_eschecker@0.0.5@eschecker/lib/semantic-model/types/record-type.js:54-67 | a record accepts a record with equal properties |
| TypeLaws.AllPropertiesSubType | project/erp/node_modules/_eschecker@0.0.5@eschecker/lib/semantic-model/types/record-type.js:59-66 | the property loop says yes when every own property is found in the other type with a subtype |
| TypeLaws.SubTypeReflexive | project/erp/node_modules/_eschecker@0.0.5@eschecker/lib/semantic-model/types/type.js:63-65 | every well-formed type is a subtype of itself |
| TypeLaws.SubTypeByClass | project/erp/node_modules/_eschecker@0.0.5@eschecker/lib/semantic-model/types/maybe-type.js:56-58 | Any, Void and type variables accept everything; a Maybe accepts null, undefined, its parameter's subtypes and Maybes of those; other base types accept their own class only; functions, records and arrays reject other classes |
| TypeLaws.SubstituteUnmentioned | project/erp/node_modules/_eschecker@0.0.5@eschecker/lib/semantic-model/types/parametrized-type.js:59-62 | substituting a type that occurs nowhere inside returns the type itself |
| TypeLaws.PropertiesSubstituteUnmentioned | project/erp/node_modules/_eschecker@0.0.5@eschecker/lib/semantic-model/types/record-type.js:148-150 | a property map without the old type is left as it is |
| TypeLaws.SubstitutePreservesWellFormed | project/erp/node_modules/_eschecker@0.0.5@eschecker/lib/semantic-model/types/record-type.js:133-153 | substitution keeps property names distinct and storable |
| TypeLaws.SubstitutePreservesKinds | project/erp/node_modules/_eschecker@0.0.5@eschecker/lib/semantic-model/types/type.js:100 | substitution keeps every part's id naming its class |
| TypeLaws.SubstituteMatchesReference | project/erp/node_modules/_eschecker@0.0.5@eschecker/lib/semantic-model/types/parametrized-type.js:51-65 | `substitute`, which keeps unchanged parts as they are, equals the reference substitution that replaces every occurrence |
| TypeLaws.MaybeSubstituteMatchesReference | project/erp/node_modules/_eschecker@0.0.5@eschecker/lib/semantic-model/types/parametrized-type.js:51-65 | the same for a Maybe |
| TypeLaws.FunctionSubstituteMatchesReference | project/erp/node_modules/_eschecker@0.0.5@eschecker/lib/semantic-model/types/parametrized-type.js:51-65 | the same for a function type |
| TypeLaws.RecordSubstituteMatchesReference | project/erp/node_modules/_eschecker@0.0.5@eschecker/lib/semantic-model/types/record-type.js:133-153 | the same for a record |
| TypeLaws.ArraySubstituteMatchesReference | project/erp/node_modules/_eschecker@0.0.5@eschecker/lib/semantic-model/types/array-type.js:58-70 | the same for an array, with its element type and properties both substituted |
| TypeLaws.ListSubstituteMatchesReference | project/erp/node_modules/_eschecker@0.0.5@eschecker/lib/semantic-model/types/parametrized-type.js:57-60 | the same for a parameter list |
| TypeLaws.SubstitutedPropertiesMatchReference | project/erp/node_modules/_eschecker@0.0.5@eschecker/lib/semantic-model/types/record-type.js:138-146 | the same for a property map |
| TypeLaws.ArraySubstituteKeepsStaleProperty | project/erp/node_modules/_eschecker@0.0.5@eschecker/lib/semantic-model/types/array-type.js:63-66 | the array `{foo: α}` of α with α replaced by number keeps `foo: α` as written, also inside a Maybe, where the corrected substitution replaces it |
| TypeLaws.SubstituteAsWrittenAgrees | project/erp/node_modules/_eschecker@0.0.5@eschecker/lib/semantic-model/types/array-type.js:58-70 | on a type with no array inside, `substitute` as written and corrected agree |
| TypeLaws.IndexOfAppend | project/erp/node_modules/_eschecker@0.0.5@eschecker/lib/semantic-model/types/record-type.js:99 | appending a property does not move any existing name |
| TypeLaws.IndexOfReplace | project/erp/node_modules/_eschecker@0.0.5@eschecker/lib/semantic-model/types/record-type.js:130 | replacing a property in place keeps its position |
| TypeLaws.AddPropertyThenGetType | project/erp/node_modules/_eschecker@0.0.5@eschecker/lib/semantic-model/types/record-type.js:94-113 | after `addProperty` the property has the added type |
| TypeLaws.AddPropertyKeepsOthers | project/erp/node_modules/_eschecker@0.0.5@eschecker/lib/semantic-model/types/record-type.js:94-100 | `addProperty` leaves every other property as it was |
| TypeLaws.AddPropertyPreservesWellFormed | project/erp/node_modules/_eschecker@0.0.5@eschecker/lib/semantic-model/types/record-type.js:97 | the absence assertion keeps property names distinct |
| TypeLaws.SetTypeThenGetType | project/erp/node_modules/_eschecker@0.0.5@eschecker/lib/semantic-model/types/array-type.js:161-169 | after `setType` of a non-computed member the member has the new type |
| TypeLaws.SetTypePreservesWellFormed | project/erp/node_modules/_eschecker@0.0.5@eschecker/lib/semantic-model/types/record-type.js:121-131 | `setType` keeps property names distinct |
| TypeLaws.SpliceHasPropertyWithoutType | project/erp/node_modules/_eschecker@0.0.5@eschecker/lib/semantic-model/types/array-type.js:84-102 | every array admits the non-computed name `splice`, but `getType` on it fails: it is listed as a built-in and has no signature |
| TypeLaws.HasPropertyWithoutTypeIsSplice | project/erp/node_modules/_eschecker@0.0.5@eschecker/lib/semantic-model/types/array-type.js:84-102 | as written, `splice` on an array is the only member an array or record admits without a type |
| TypeLaws.AmongListedAgreesOffSplice | project/erp/node_modules/_eschecker@0.0.5@eschecker/lib/semantic-model/types/array-type.js:84-102 | off the name `splice`, `hasProperty` and `getType` as written agree with the corrected ones |
| TypeLaws.HasPropertyHasType | project/erp/node_modules/_eschecker@0.0.5@eschecker/lib/semantic-model/types/array-type.js:84-102 | with `splice` dropped from the built-ins, every member an array or record admits has a type |
| TypeLaws.FreshEqualsOriginal | project/erp/node_modules/_eschecker@0.0.5@eschecker/lib/semantic-model/types/type-variable.js:29-31 | a fresh instance equals its original, except a type variable with a new id, which equals nothing but itself |
| TypeLaws.TypeParametersRoundTrip | project/erp/node_modules/_eschecker@0.0.5@eschecker/lib/semantic-model/types/function-type.js:56-71 | rebuilding a parametrized type from its own parameters and id gives it back |
| TypeLaws.ContainedIsSmaller | project/erp/node_modules/_eschecker@0.0.5@eschecker/lib/semantic-model/types/parametrized-type.js:72-78 | a contained type is no larger than its container, and strictly smaller when it is a proper part, so `containsType` terminates |
| Unification.Applicable | project/erp/node_modules/_eschecker@0.0.5@eschecker/lib/type-inference/type-unificator.js:101 | the rules that accept the pair, a sub-list of the rule set |
| Unification.ApplicableMembers | project/erp/node_modules/_eschecker@0.0.5@eschecker/lib/type-inference/type-unificator.js:101 | the filtered rules are exactly the rules of the set that accept the pair |
| Unification.Unify | project/erp/node_modules/_eschecker@0.0.5@eschecker/lib/type-inference/type-unificator.js:65-87 | `unify` and the rules it applies; a successful unification only ever draws new ids |
| Unification.EqualTypesUnify | project/erp/node_modules/_eschecker@0.0.5@eschecker/lib/type-inference/type-unificator.js:67-69 | two equal types unify to the first |
| Unification.NoRuleNotUnifiable | project/erp/node_modules/_eschecker@0.0.5@eschecker/lib/type-inference/type-unificator.js:100-112 | two differing concrete types that no rule accepts raise NotUnifiable |
| Unification.NullAnyAmbiguous | project/erp/node_modules/_eschecker@0.0.5@eschecker/lib/type-inference/type-unificator.js:108-110 | null with Any, in either order, is accepted by both the Any rule and the null rule and raises the ambiguity error |
| Unification.UnifyByRule | project/erp/node_modules/_eschecker@0.0.5@eschecker/lib/type-inference/type-unificator.js:96-107 | two differing concrete types that one rule alone accepts are unified by that rule |
| Unification.VariableBinding | project/erp/node_modules/_eschecker@0.0.5@eschecker/lib/type-inference/type-unificator.js:76-86 | a type variable is bound to any type it does not occur in and fails the occurs check otherwise; a variable on the right is swapped to the left |
| Unification.ParameterCountsDiffer | project/erp/node_modules/_eschecker@0.0.5@eschecker/lib/type-inference/unification-rules/parametrized-types-unification-rule.js:18-20 | two function types with different parameter counts raise the parameter-count error |
| Unification.UnifyList | project/erp/node_modules/_eschecker@0.0.5@eschecker/lib/type-inference/unification-rules/parametrized-types-unification-rule.js:22-23 | the type parameters are unified pairwise, as many as the shorter list has |
| Unification.UnifyParametrized | project/erp/node_modules/_eschecker@0.0.5@eschecker/lib/type-inference/unification-rules/parametrized-types-unification-rule.js:17-29 | the rule keeps the first type when the parameters unify to equal ones; a Maybe whose parameter changes fails the assertion of `withTypeParameters`; only a function type is rebuilt, under a new id |
| Unification.MaybesUnifyUnchanged | project/erp/node_modules/_eschecker@0.0.5@eschecker/lib/semantic-model/types/maybe-type.js:44-48 | two different Maybes unify, if at all, to the first one unchanged |
| Unification.MaybeParameterChangeRefused | project/erp/node_modules/_eschecker@0.0.5@eschecker/lib/semantic-model/types/maybe-type.js:44-48 | when the parameters of two different Maybes unify to a type not equal to the first one's, unification raises the assertion |
| Unification.MaybeOfVariableRefused | project/erp/node_modules/_eschecker@0.0.5@eschecker/lib/type-inference/unification-rules/parametrized-types-unification-rule.js:28 | Maybe of a type variable with Maybe of string raises the assertion |
| Unification.DeleteProperty | project/erp/node_modules/_eschecker@0.0.5@eschecker/lib/type-inference/unification-rules/record-type-unification-rule.js:27 | deleting a missing name changes nothing; deleting a present one leaves one entry fewer |
| Unification.DeletePropertyNames | project/erp/node_modules/_eschecker@0.0.5@eschecker/lib/type-inference/unification-rules/record-type-unification-rule.js:27 | deleting keeps names distinct and removes exactly that name |
| Unification.SetPropertyNames | project/erp/node_modules/_eschecker@0.0.5@eschecker/lib/type-inference/unification-rules/record-type-unification-rule.js:24 | setting a present name keeps the set of names |
| Unification.UnifyPropertiesNames | project/erp/node_modules/_eschecker@0.0.5@eschecker/lib/type-inference/unification-rules/record-type-unification-rule.js:17-30 | the property loop removes exactly the visited names the larger record lacks |
| Unification.RecordRuleKeepsCommonNames | project/erp/node_modules/_eschecker@0.0.5@eschecker/lib/type-inference/unification-rules/record-type-unification-rule.js:13-36 | the record rule yields a record whose property names are exactly the names common to both |
| Unification.RecordUnifyKeepsCommonNames | project/erp/node_modules/_eschecker@0.0.5@eschecker/lib/type-inference/unification-rules/record-type-unification-rule.js:13-36 | the same through `unify` for two object types |
| Unification.CommonProperties | project/erp/node_modules/_eschecker@0.0.5@eschecker/lib/type-inference/unification-rules/record-type-unification-rule.js:17-30 | the loop over the smaller record's entries, as `UnifyProperties` |
| Unification.ExclusiveAtMostOne | project/erp/node_modules/_eschecker@0.0.5@eschecker/lib/type-inference/type-unificator.js:103-107 | when no two rules of a set accept the same pair, at most one rule is selected |
| Unification.RulesExclusive | project/erp/node_modules/_eschecker@0.0.5@eschecker/lib/type-inference/type-unificator.js:46 | apart from the null rule, no two rules accept the same pair |
| Unification.DefaultRulesOverlap | project/erp/node_modules/_eschecker@0.0.5@eschecker/lib/type-inference/unification-rules/t-null-unification-rule.js:11-14 | in the default rule set the only two rules that can both accept a pair are the Any rule and the null rule, on null with Any |
| Unification.CorrectedRulesUnambiguous | project/erp/node_modules/_eschecker@0.0.5@eschecker/lib/type-inference/unification-rules/any-unification-rule.js:8-10 | with the null rule excluding Any, at most one rule accepts any pair |
| Unification.CorrectedNeverAmbiguous | project/erp/node_modules/_eschecker@0.0.5@eschecker/lib/type-inference/type-unificator.js:108-110 | with the corrected rules, unification never fails for an ambiguous rule, at any depth |
| Unification.NeverAmbiguous | project/erp/node_modules/_eschecker@0.0.5@eschecker/lib/type-inference/type-unificator.js:100-112 | any rule set in which at most one rule accepts each pair never raises the ambiguity error, at any depth |
| Unification.AnySelected | project/erp/node_modules/_eschecker@0.0.5@eschecker/lib/type-inference/unification-rules/any-unification-rule.js:8-10 | only the Any rule accepts Any with another concrete type (with the default rules, other than null) |
| Unification.AnyAbsorbs | project/erp/node_modules/_eschecker@0.0.5@eschecker/lib/type-inference/unification-rules/any-unification-rule.js:12-14 | Any absorbs every other type on either side |
| Unification.VoidSelected | project/erp/node_modules/_eschecker@0.0.5@eschecker/lib/type-inference/unification-rules/t-undefined-unification-rule.js:11-14 | only the undefined rule accepts Void with a concrete type other than Any and Void |
| Unification.VoidGivesWay | project/erp/node_modules/_eschecker@0.0.5@eschecker/lib/type-inference/unification-rules/t-undefined-unification-rule.js:16-18 | Void unifies to the other type on either side |
| Unification.NullSelected | project/erp/node_modules/_eschecker@0.0.5@eschecker/lib/type-inference/unification-rules/t-null-unification-rule.js:11-14 | only the null rule accepts null with a concrete type that is not null, Maybe, Void or Any |
| Unification.NullMakesMaybe | project/erp/node_modules/_eschecker@0.0.5@eschecker/lib/type-inference/unification-rules/t-null-unification-rule.js:16-19 | null with such a type unifies to Maybe of that type, on either side |
| Unification.NullJoinsMaybe | project/erp/node_modules/_eschecker@0.0.5@eschecker/lib/type-inference/unification-rules/null-maybe-unification-rule.js:8-14 | null with a Maybe unifies to the Maybe, on either side |
| Unification.MaybeSelected | project/erp/node_modules/_eschecker@0.0.5@eschecker/lib/type-inference/unification-rules/t-maybe-unification-rule.js:8-12 | only the Maybe rule accepts a Maybe with a concrete type that is not null, Maybe, Void or Any |
| Unification.MaybeWraps | project/erp/node_modules/_eschecker@0.0.5@eschecker/lib/type-inference/unification-rules/t-maybe-unification-rule.js:14-21 | a Maybe with such a type: the same result on either side, the Maybe itself when the type is its parameter, a Maybe otherwise |
| Unification.UnifyKeepsKind | project/erp/node_modules/_eschecker@0.0.5@eschecker/lib/type-inference/unification-rules/array-unification-rule.js:13-23 | two concrete types of one class unify to a type of that class |
| Unification.ApplyRuleKeepsKind | project/erp/node_modules/_eschecker@0.0.5@eschecker/lib/type-inference/unification-rules/parametrized-types-unification-rule.js:24-28 | each rule keeps the class of two same-class types |
| TypeEnvironments.SymbolsOf | project/erp/node_modules/_eschecker@0.0.5@eschecker/lib/type-inference/type-environment.js:161 | the keys of an environment's entries, one per entry and in order |
| TypeEnvironments.Find | project/erp/node_modules/_eschecker@0.0.5@eschecker/lib/type-inference/type-environment.js:54 | the position of the first entry for the symbol, or none when no entry has it |
| TypeEnvironments.Delete | project/erp/node_modules/_eschecker@0.0.5@eschecker/lib/type-inference/type-environment.js:116 | deleting a missing key changes nothing; deleting a present key removes one entry and moves the last entry into its place, the immutable map's small-map order |
| TypeEnvironments.FindDistinct | project/erp/node_modules/_eschecker@0.0.5@eschecker/lib/type-inference/type-environment.js:52-55 | in a map with distinct keys, each entry is found at its own position and its type is returned |
| TypeEnvironments.GetAppend | project/erp/node_modules/_eschecker@0.0.5@eschecker/lib/type-inference/type-environment.js:39-44 | appending a new key keeps every other lookup and keeps the keys distinct |
| TypeEnvironments.DeleteGet | project/erp/node_modules/_eschecker@0.0.5@eschecker/lib/type-inference/type-environment.js:116 | after a delete, the deleted key is absent, every other key keeps its type, and the keys stay distinct |
| TypeEnvironments.SetTypeThenGetType | project/erp/node_modules/_eschecker@0.0.5@eschecker/lib/type-inference/type-environment.js:39-44 | after `setType`, `getType` returns the type just set and `hasType` holds; an existing key is updated in place, a new one is appended |
| TypeEnvironments.SetTypeKeepsOthers | project/erp/node_modules/_eschecker@0.0.5@eschecker/lib/type-inference/type-environment.js:39-44 | `setType` leaves every other symbol's type unchanged and keeps the keys distinct |
| TypeEnvironments.EmptyHasNoTypes | project/erp/node_modules/_eschecker@0.0.5@eschecker/lib/type-inference/type-environment.js:29-31 | `EMPTY` is empty; an empty environment has no type for any symbol, and a non-empty one has a type for its first key |
| TypeEnvironments.SetType | project/erp/node_modules/_eschecker@0.0.5@eschecker/lib/type-inference/type-environment.js:39-44 | the symbol is bound to the type; an existing key keeps its place and a new one is appended |
| TypeEnvironments.GetType | project/erp/node_modules/_eschecker@0.0.5@eschecker/lib/type-inference/type-environment.js:52-55 | there is a type exactly when the symbol has an entry, and it is that entry's type |
| TypeEnvironments.Equals | project/erp/node_modules/_eschecker@0.0.5@eschecker/lib/type-inference/type-environment.js:191-193 | equal environments have as many keys, and every key of the other one has a type here |
| TypeEnvironments.EqualsAgreesOnEverySymbol | project/erp/node_modules/_eschecker@0.0.5@eschecker/lib/type-inference/type-environment.js:191-193 | equal environments give equal types to every symbol either holds |
| TypeEnvironments.EqualsReflexive | project/erp/node_modules/_eschecker@0.0.5@eschecker/lib/type-inference/type-environment.js:191-193 | every environment of well-formed types equals itself |
| TypeEnvironments.SubstituteEntry | project/erp/node_modules/_eschecker@0.0.5@eschecker/lib/type-inference/type-environment.js:92-94 | one step of the loop replaces only the visited entry's type by its substituted type |
| TypeEnvironments.Drain | project/erp/node_modules/_eschecker@0.0.5@eschecker/lib/type-inference/type-environment.js:89-102 | draining the worklist keeps the keys of the environment, and an empty worklist changes nothing |
| TypeEnvironments.TakeSubstitution | project/erp/node_modules/_eschecker@0.0.5@eschecker/lib/type-inference/type-environment.js:89-101 | one turn of the worklist loop pops the last substitution and applies it to every entry, leaving a state from which the loop reaches the same result with one pass fewer |
| TypeEnvironments.VisitEntries | project/erp/node_modules/_eschecker@0.0.5@eschecker/lib/type-inference/type-environment.js:91-101 | the loop over the entries ends in the state the pass function describes, entries and worklist |
| TypeEnvironments.VisitEntry | project/erp/node_modules/_eschecker@0.0.5@eschecker/lib/type-inference/type-environment.js:92-100 | one entry's step substitutes that entry and queues its change as the pass function does |
| TypeEnvironments.SubstituteInMutable | project/erp/node_modules/_eschecker@0.0.5@eschecker/lib/type-inference/type-environment.js:85-103 | the worklist loop computes the substitution function and keeps the keys |
| TypeEnvironments.Substitute | project/erp/node_modules/_eschecker@0.0.5@eschecker/lib/type-inference/type-environment.js:72-83 | substituting a type by itself returns the environment unchanged; any substitution keeps the keys |
| TypeEnvironments.PassSubstitutesEachEntry | project/erp/node_modules/_eschecker@0.0.5@eschecker/lib/type-inference/type-environment.js:91-101 | a pass gives every visited entry its substituted type and leaves earlier entries alone |
| TypeEnvironments.PassKeepsWaiting | project/erp/node_modules/_eschecker@0.0.5@eschecker/lib/type-inference/type-environment.js:98 | a pass only pushes: the substitutions already waiting stay, in order, at the bottom of the stack |
| TypeEnvironments.PassWithoutChangeQueuesNothing | project/erp/node_modules/_eschecker@0.0.5@eschecker/lib/type-inference/type-environment.js:93 | when the substitution changes no entry, nothing new is queued |
| TypeEnvironments.PassQueuesOnlyChanges | project/erp/node_modules/_eschecker@0.0.5@eschecker/lib/type-inference/type-environment.js:93-99 | every queued substitution is a real change of some entry's type and never starts from the old type |
| TypeEnvironments.PassQueuesEveryChange | project/erp/node_modules/_eschecker@0.0.5@eschecker/lib/type-inference/type-environment.js:93-99 | every entry whose type changes, other than one holding the old type itself, has its change queued |
| TypeEnvironments.SubstituteUnmentionedKeepsEnvironment | project/erp/node_modules/_eschecker@0.0.5@eschecker/lib/type-inference/type-environment.js:72-83 | substituting a type that no entry mentions returns the same environment |
| EnvironmentCascade.PassQueueBound | project/erp/node_modules/_eschecker@0.0.5@eschecker/lib/type-inference/type-environment.js:93-99 | a pass queues at most one substitution per entry it visits |
| EnvironmentCascade.FirstPassSubstitutesOnce | project/erp/node_modules/_eschecker@0.0.5@eschecker/lib/type-inference/type-environment.js:91-101 | the first pass gives every entry its type substituted once |
| EnvironmentCascade.IdlePass | project/erp/node_modules/_eschecker@0.0.5@eschecker/lib/type-inference/type-environment.js:91-101 | a pass of a substitution that changes no entry leaves the entries and the worklist as they are |
| EnvironmentCascade.DrainIdle | project/erp/node_modules/_eschecker@0.0.5@eschecker/lib/type-inference/type-environment.js:89-102 | substitutions that change no entry drain, one pass each, without changing anything |
| EnvironmentCascade.QueuedChangesIdle | project/erp/node_modules/_eschecker@0.0.5@eschecker/lib/type-inference/type-environment.js:91-100 | when the changes settle, every change the first pass queues leaves the substituted entries as they are |
| EnvironmentCascade.QueuedChangesDrain | project/erp/node_modules/_eschecker@0.0.5@eschecker/lib/type-inference/type-environment.js:89-102 | the changes the first pass queues drain from the substituted entries without changing them |
| EnvironmentCascade.CascadeDrains | project/erp/node_modules/_eschecker@0.0.5@eschecker/lib/type-inference/type-environment.js:85-103 | with fuel beyond the entry count, the worklist loop ends with every entry substituted once |
| EnvironmentCascade.SubstituteCascadeSettles | project/erp/node_modules/_eschecker@0.0.5@eschecker/lib/type-inference/type-environment.js:72-103 | the whole cascade: when the first pass's changes settle, `substitute` returns every entry substituted once, or the environment itself when that equals the old entries |
| EnvironmentCascade.SubstituteOneEntry | project/erp/node_modules/_eschecker@0.0.5@eschecker/lib/type-inference/type-environment.js:72-103 | on one entry whose type is not a different instance of the old type, `substitute` returns the entry with its type substituted, or the environment itself when that type is equal |
| TypeEnvironments.DifferenceFromGet | project/erp/node_modules/_eschecker@0.0.5@eschecker/lib/type-inference/type-environment.js:111-119 | the loop of `difference` deletes exactly the entries whose type equals the type before, keeps distinct keys, and never grows |
| TypeEnvironments.DifferenceKeepsChanges | project/erp/node_modules/_eschecker@0.0.5@eschecker/lib/type-inference/type-environment.js:110-126 | `difference` keeps a symbol's type exactly when the environment before had no equal type for it |
| TypeEnvironments.DifferenceWithItselfIsEmpty | project/erp/node_modules/_eschecker@0.0.5@eschecker/lib/type-inference/type-environment.js:110-126 | the difference of an environment with itself is empty |
| TypeEnvironments.DifferenceFromEmptyIsAll | project/erp/node_modules/_eschecker@0.0.5@eschecker/lib/type-inference/type-environment.js:110-126 | the difference from the empty environment is the environment itself |
| TypeEnvironments.DifferenceFromNothingDeleted | project/erp/node_modules/_eschecker@0.0.5@eschecker/lib/type-inference/type-environment.js:121-123 | when no entry is unchanged, the loop returns the mappings it was given |
| TypeEnvironments.Difference | project/erp/node_modules/_eschecker@0.0.5@eschecker/lib/type-inference/type-environment.js:110-126 | `difference` only deletes: the result never has more entries than the environment |
| TypeEnvironments.AddFromGet | project/erp/node_modules/_eschecker@0.0.5@eschecker/lib/type-inference/type-environment.js:135-141 | the loop of `add` keeps the existing entries as a prefix, appends only missing keys, and keeps the keys distinct |
| TypeEnvironments.AddNeverOverrides | project/erp/node_modules/_eschecker@0.0.5@eschecker/lib/type-inference/type-environment.js:134-148 | `add` never overrides: a symbol keeps its own type and takes the added type only when it had none |
| TypeEnvironments.AddNothingNew | project/erp/node_modules/_eschecker@0.0.5@eschecker/lib/type-inference/type-environment.js:143-145 | adding mappings whose symbols all have types returns the environment unchanged |
| TypeEnvironments.AddFromPresent | project/erp/node_modules/_eschecker@0.0.5@eschecker/lib/type-inference/type-environment.js:137 | the loop adds nothing when every visited key is already present |
| TypeEnvironments.Add | project/erp/node_modules/_eschecker@0.0.5@eschecker/lib/type-inference/type-environment.js:134-148 | `add` only appends: this environment's entries stay first, in their order and with their types |
| TypeEnvironments.ReplaceFrom | project/erp/node_modules/_eschecker@0.0.5@eschecker/lib/type-inference/type-environment.js:160-171 | the loop of `replaceTypes` keeps the keys it started from |
| TypeEnvironments.ReplaceTypes | project/erp/node_modules/_eschecker@0.0.5@eschecker/lib/type-inference/type-environment.js:157-178 | `replaceTypes` keeps the environment's keys |
| TypeEnvironments.ReplaceTypesSkipsExcluded | project/erp/node_modules/_eschecker@0.0.5@eschecker/lib/type-inference/type-environment.js:157-178 | when every symbol is excluded, has no new type or has an equal one, the environment is returned unchanged |
| TypeEnvironments.ReplaceFromNothing | project/erp/node_modules/_eschecker@0.0.5@eschecker/lib/type-inference/type-environment.js:161-170 | the loop changes nothing when no visited entry is due for replacement |
| TypeEnvironments.ReplaceTypesReplacesVariable | project/erp/node_modules/_eschecker@0.0.5@eschecker/lib/type-inference/type-environment.js:157-178 | a symbol bound to a type variable takes its new type unless it is excluded, in which case it keeps the variable |
| BinaryOperators.LeftParameterType | project/erp/node_modules/_eschecker@0.0.5@eschecker/lib/type-inference/refinement-rules/binary-operators.js:77-79 | a number operator wants a Maybe of number on the left; a strict equality wants the left operand's own type |
| BinaryOperators.RightParameterType | project/erp/node_modules/_eschecker@0.0.5@eschecker/lib/type-inference/refinement-rules/binary-operators.js:81-83 | a number operator wants a Maybe of number on the right; a strict equality wants the left operand's type, which `refine` passes in |
| BinaryOperators.OperatorReturnType | project/erp/node_modules/_eschecker@0.0.5@eschecker/lib/type-inference/refinement-rules/binary-operators.js:85-87 | a number operator returns the number type; a strict equality returns a new boolean type |
| BinaryOperators.NumberOperatorRefines | project/erp/node_modules/_eschecker@0.0.5@eschecker/lib/type-inference/refinement-rules/binary-operators.js:19-24 | a number operator unifies the left operand with Maybe of number, then Maybe of number with the right operand, in that order, and returns number; an error stops the refinement where it occurs |
| BinaryOperators.StrictEqualityRefines | project/erp/node_modules/_eschecker@0.0.5@eschecker/lib/type-inference/refinement-rules/binary-operators.js:95-105 | `===` and `!==` unify the left operand with itself, then with the right operand, and return a boolean; an error stops the refinement where it occurs |
| BinaryOperators.ParameterIndependentIgnoresOperands | project/erp/node_modules/_eschecker@0.0.5@eschecker/lib/type-inference/refinement-rules/binary-operators.js:60-70 | `==` and `!=` call no unification and return the stored type |
| BinaryOperators.TableHasNineteenTokens | project/erp/node_modules/_eschecker@0.0.5@eschecker/lib/type-inference/refinement-rules/binary-operators.js:137-157 | the table holds exactly the nineteen listed tokens, and a token is found exactly when it is one of them |
| BinaryOperators.EqualityOperators | project/erp/node_modules/_eschecker@0.0.5@eschecker/lib/type-inference/refinement-rules/binary-operators.js:146-149 | `==` and `!=` both map to a parameter-independent operator named `==` returning boolean; `===` and `!==` map to strict equalities |
| BinaryOperators.OtherTokensAreNumberOperators | project/erp/node_modules/_eschecker@0.0.5@eschecker/lib/type-inference/refinement-rules/binary-operators.js:138-156 | every other token maps to the number operator of the same name |
| Scopes.IndexOfName | project/erp/node_modules/_eschecker@0.0.5@eschecker/lib/semantic-model/scope.js:98 | the position of the first symbol with the name, or none exactly when no symbol has it |
| Scopes.FirstNamed | project/erp/node_modules/_eschecker@0.0.5@eschecker/lib/semantic-model/scope.js:98 | the symbol found has the name asked for and is one of the scope's symbols |
| Scopes.Scope.constructor | project/erp/node_modules/_eschecker@0.0.5@eschecker/lib/semantic-model/scope.js:12-16 | a new scope has the given parent and no symbols or children |
| Scopes.Scope.AddSymbol | project/erp/node_modules/_eschecker@0.0.5@eschecker/lib/semantic-model/scope.js:22-27 | adding succeeds exactly when the scope has no symbol of that name; it then appends the symbol, otherwise it changes nothing; names stay distinct |
| Scopes.Scope.ReplaceSymbol | project/erp/node_modules/_eschecker@0.0.5@eschecker/lib/semantic-model/scope.js:34-40 | replacing succeeds exactly when the scope holds the old name and both names agree; the new symbol takes the old one's place, and a refused call changes nothing |
| Scopes.Scope.GetOwnSymbol | project/erp/node_modules/_eschecker@0.0.5@eschecker/lib/semantic-model/scope.js:97-99 | a symbol is returned exactly when the scope itself declares the name, and it carries that name |
| Scopes.Scope.ResolveSymbol | project/erp/node_modules/_eschecker@0.0.5@eschecker/lib/semantic-model/scope.js:107-114 | a symbol is found exactly when this scope or an enclosing one declares the name; the scope's own symbol wins, otherwise the parent resolves it |
| Scopes.Scope.GetAllSymbols | project/erp/node_modules/_eschecker@0.0.5@eschecker/lib/semantic-model/scope.js:72-81 | the walk lists this scope's symbols, then each enclosing scope's, out to the global one |
| Scopes.Scope.CreateChild | project/erp/node_modules/_eschecker@0.0.5@eschecker/lib/semantic-model/scope.js:120-124 | the child is a new empty scope whose parent is this one, appended to the children; the symbols stay as they were |
| Scopes.FirstNamedAppend | project/erp/node_modules/_eschecker@0.0.5@eschecker/lib/semantic-model/scope.js:72-81 | in a concatenation of symbol lists the first symbol of a name comes from the front list when it has one |
| Scopes.ResolveIsFirstOfAllSymbols | project/erp/node_modules/_eschecker@0.0.5@eschecker/lib/semantic-model/scope.js:107-114 | resolving a name gives the first symbol of that name that `getAllSymbols` lists, so nearer scopes shadow enclosing ones |
| Scopes.GlobalScopeResolvesOwnSymbols | project/erp/node_modules/_eschecker@0.0.5@eschecker/lib/semantic-model/scope.js:87-89 | a global scope sees only its own symbols |
| Scopes.ChildSeesParentSymbols | project/erp/node_modules/_eschecker@0.0.5@eschecker/lib/semantic-model/scope.js:56-58 | a child is not global, sees every name its parent sees, and resolves a name it does not declare as its parent does |
| ControlFlow.NewEdgeChecksEndpoints | project/erp/node_modules/_eschecker@0.0.5@eschecker/lib/cfg/edge.js:14-34 | an edge is built exactly when both endpoints are nodes, and then records source, branch and target; a missing target fails with the message the source gives |
| ControlFlow.Node.constructor | project/erp/node_modules/_eschecker@0.0.5@eschecker/lib/cfg/node.js:11-35 | a new node wraps the value and has no successors, no predecessors and no annotation |
| ControlFlow.Node.IsSuccessorOf | project/erp/node_modules/_eschecker@0.0.5@eschecker/lib/cfg/node.js:44-52 | the loop answers true exactly when some edge from the given node reaches this node along the branch, any branch when none is given |
| ControlFlow.WithoutBranchMatchesAny | project/erp/node_modules/_eschecker@0.0.5@eschecker/lib/cfg/node.js:46 | a node that is a successor along some branch is a successor when no branch is asked for |
| ControlFlow.OneEdgeIsDirectional | project/erp/node_modules/_eschecker@0.0.5@eschecker/lib/cfg/node.js:44-52 | a single edge makes its target a successor along its own branch or no branch, and never makes the source a successor of the target |
| ControlFlow.ControlFlowGraph.constructor | project/erp/node_modules/_eschecker@0.0.5@eschecker/lib/cfg/control-flow-graph.js:38-40 | a new graph has no nodes |
| ControlFlow.ControlFlowGraph.GetNodes | project/erp/node_modules/_eschecker@0.0.5@eschecker/lib/cfg/control-flow-graph.js:46-48 | the nodes of the graph, one per value, in insertion order and without repetition |
| ControlFlow.GetNodesListsEveryNode | project/erp/node_modules/_eschecker@0.0.5@eschecker/lib/cfg/control-flow-graph.js:46-48 | every node of the graph is listed |
| ControlFlow.ControlFlowGraph.GetNode | project/erp/node_modules/_eschecker@0.0.5@eschecker/lib/cfg/control-flow-graph.js:89-91 | a node is found exactly when the graph has one for the value, and it is that node |
| ControlFlow.ControlFlowGraph.CreateNode | project/erp/node_modules/_eschecker@0.0.5@eschecker/lib/cfg/control-flow-graph.js:123-133 | an existing node is returned and nothing changes; otherwise a new empty node is stored under the value and appended to the insertion order |
| ControlFlow.ControlFlowGraph.NodeOf | project/erp/node_modules/_eschecker@0.0.5@eschecker/lib/cfg/control-flow-graph.js:167-175 | a node is used as given; a value is resolved to its node, which is created when missing |
| ControlFlow.ControlFlowGraph.IsConnected | project/erp/node_modules/_eschecker@0.0.5@eschecker/lib/cfg/control-flow-graph.js:160-165 | the answer is whether the resolved target is a successor of the resolved source along the branch; missing nodes of values are created and existing nodes are kept |
| ControlFlow.ControlFlowGraph.Connect | project/erp/node_modules/_eschecker@0.0.5@eschecker/lib/cfg/control-flow-graph.js:146-150 | after the call the target is a successor of the source along the branch; an edge is added to both ends only when none matched before |
| ControlFlow.ControlFlowGraph.ConnectIfNotFound | project/erp/node_modules/_eschecker@0.0.5@eschecker/lib/cfg/control-flow-graph.js:142-151 | the end points' nodes are created when missing, starting without edges; one edge is appended to the edges leaving the source and to those entering the target exactly when no edge leaving the source matched; existing entries and every other node are unchanged, and the graph stays well formed |
| ControlFlow.ControlFlowGraph.EndpointNodes | project/erp/node_modules/_eschecker@0.0.5@eschecker/lib/cfg/control-flow-graph.js:143-144 | both end points are resolved to their nodes, a value's node created without edges when missing, and the existing entries are kept |
| ControlFlow.ExpandExitsAdds | project/erp/node_modules/_eschecker@0.0.5@eschecker/lib/cfg/control-flow-graph.js:74-80 | the loop over a node's edges only puts targets in front of the queue and only appends exit edges |
| ControlFlow.ExpandExitsCovers | project/erp/node_modules/_eschecker@0.0.5@eschecker/lib/cfg/control-flow-graph.js:74-80 | every edge of the node is either recorded as an exit edge or has its target processed or queued |
| ControlFlow.ExpandExitsDistinct | project/erp/node_modules/_eschecker@0.0.5@eschecker/lib/cfg/control-flow-graph.js:74-80 | the loop records each exit edge at most once when the edges are distinct |
| ControlFlow.ExitSearchKeeps | project/erp/node_modules/_eschecker@0.0.5@eschecker/lib/cfg/control-flow-graph.js:72-81 | the search only adds to the processed nodes and the found edges, and processes every queued node |
| ControlFlow.ExitSearch | project/erp/node_modules/_eschecker@0.0.5@eschecker/lib/cfg/control-flow-graph.js:67-82 | the corrected search only adds to the processed nodes and keeps the edges found before it in front |
| ControlFlow.ExitSearchAsWritten | project/erp/node_modules/_eschecker@0.0.5@eschecker/lib/cfg/control-flow-graph.js:67-82 | the search as written keeps the edges found before it in front |
| ControlFlow.ExpandExitsKeepsEnds | project/erp/node_modules/_eschecker@0.0.5@eschecker/lib/cfg/control-flow-graph.js:74-80 | the loop over a node's edges leaves the waiting queue at the back and the edges already yielded at the front |
| ControlFlow.ExpandExitsQueues | project/erp/node_modules/_eschecker@0.0.5@eschecker/lib/cfg/control-flow-graph.js:74-80 | every node the loop adds to the queue is the target of one of the node's edges and is not the exit |
| ControlFlow.ExpandExitsFinds | project/erp/node_modules/_eschecker@0.0.5@eschecker/lib/cfg/control-flow-graph.js:74-80 | every edge the loop yields is one of the node's edges and leads into the exit |
| ControlFlow.ExitSearchExpands | project/erp/node_modules/_eschecker@0.0.5@eschecker/lib/cfg/control-flow-graph.js:73-80 | processing an unprocessed node continues the search from its expanded queue, which still holds every other waiting node, with the yielded edges kept in order |
| ControlFlow.ExitSearchCovers | project/erp/node_modules/_eschecker@0.0.5@eschecker/lib/cfg/control-flow-graph.js:72-81 | when the search ends, every exit edge of every processed node has been found |
| ControlFlow.ExitSearchStaysIn | project/erp/node_modules/_eschecker@0.0.5@eschecker/lib/cfg/control-flow-graph.js:72-81 | the search processes only nodes reachable without passing the exit |
| ControlFlow.ExitSearchFindsOnce | project/erp/node_modules/_eschecker@0.0.5@eschecker/lib/cfg/control-flow-graph.js:72-81 | the search with the corrected skip finds each exit edge once and only from processed nodes |
| ControlFlow.ExitEdgesOfNode | project/erp/node_modules/_eschecker@0.0.5@eschecker/lib/cfg/control-flow-graph.js:67-82 | from a node, every exit edge of every node reached before the exit is found |
| ControlFlow.ExitEdgesReachOnly | project/erp/node_modules/_eschecker@0.0.5@eschecker/lib/cfg/control-flow-graph.js:67-82 | the search from a node reaches no node outside any set that holds the node and is closed up to the exit |
| ControlFlow.ExitEdgesFoundOnce | project/erp/node_modules/_eschecker@0.0.5@eschecker/lib/cfg/control-flow-graph.js:67-82 | with the corrected skip no exit edge is found twice |
| ControlFlow.ControlFlowGraph.GetExitEdges | project/erp/node_modules/_eschecker@0.0.5@eschecker/lib/cfg/control-flow-graph.js:67-82 | the loop computes the corrected exit search from the node |
| ControlFlow.VisitSuccessors | project/erp/node_modules/_eschecker@0.0.5@eschecker/lib/cfg/control-flow-graph.js:74-80 | the loop over a node's successors computes the expansion function |
| ControlFlow.DiamondExpansions | project/erp/node_modules/_eschecker@0.0.5@eschecker/lib/cfg/control-flow-graph.js:72-81 | each step of the search on the diamond graph, edge by edge |
| ControlFlow.DiamondYieldsExitEdgeTwice | project/erp/node_modules/_eschecker@0.0.5@eschecker/lib/cfg/control-flow-graph.js:72-81 | the search as written yields the diamond's single exit edge twice |
| ControlFlow.DiamondCorrectedYieldsExitEdgeOnce | project/erp/node_modules/_eschecker@0.0.5@eschecker/lib/cfg/control-flow-graph.js:72-81 | the corrected search yields the diamond's exit edge once |
| ControlFlow.ControlFlowGraph.StartOf | project/erp/node_modules/_eschecker@0.0.5@eschecker/lib/cfg/control-flow-graph.js:114 | a node is used as given; a value is looked up without creating a node |
| ControlFlow.VisitNode | project/erp/node_modules/_eschecker@0.0.5@eschecker/lib/cfg/control-flow-graph.js:100-112 | the depth-first visit lists each newly reached node once, starting with the current one, and marks every successor of a listed node as visited |
| ControlFlow.VisitEdges | project/erp/node_modules/_eschecker@0.0.5@eschecker/lib/cfg/control-flow-graph.js:109-111 | the visit over a node's edges reaches every target and lists only nodes not visited before, once each |
| ControlFlow.VisitNodeStaysIn | project/erp/node_modules/_eschecker@0.0.5@eschecker/lib/cfg/control-flow-graph.js:100-112 | the visit reaches only nodes of a set closed under edges that holds the start |
| ControlFlow.VisitEdgesStaysIn | project/erp/node_modules/_eschecker@0.0.5@eschecker/lib/cfg/control-flow-graph.js:109-111 | the visit over edges reaches only nodes of a set closed under edges that holds their targets |
| ControlFlow.NodesToExitAreReachable | project/erp/node_modules/_eschecker@0.0.5@eschecker/lib/cfg/control-flow-graph.js:98-116 | `getNodesToExit` is empty exactly when there is no start node, starts with the start node, repeats no node, lists every successor of a listed node, and stays inside any set closed under successors that holds the start node |
| DataFlow.JoinInStatesFromPredecessors | project/erp/node_modules/_eschecker@0.0.5@eschecker/lib/data-flow-analysis/work-list-data-flow-analysis.js:75-93 | the loop collects the out states of the predecessors and joins them as the in-state function describes |
| DataFlow.OutValuesEmpty | project/erp/node_modules/_eschecker@0.0.5@eschecker/lib/data-flow-analysis/work-list-data-flow-analysis.js:76-82 | no out state is collected exactly when no predecessor has one recorded |
| DataFlow.OutValuesSingle | project/erp/node_modules/_eschecker@0.0.5@eschecker/lib/data-flow-analysis/work-list-data-flow-analysis.js:76-82 | when exactly one predecessor has an out state, that state is the only one collected |
| DataFlow.OutValuesLeading | project/erp/node_modules/_eschecker@0.0.5@eschecker/lib/data-flow-analysis/work-list-data-flow-analysis.js:76-82 | the first predecessor with a recorded out state supplies the first collected state |
| DataFlow.OutValuesFirst | project/erp/node_modules/_eschecker@0.0.5@eschecker/lib/data-flow-analysis/work-list-data-flow-analysis.js:76-82 | with two predecessors that have out states, at least two are collected and the earlier one comes first |
| DataFlow.InStateWithoutOuts | project/erp/node_modules/_eschecker@0.0.5@eschecker/lib/data-flow-analysis/work-list-data-flow-analysis.js:84-86 | a node none of whose predecessors has an out state starts from the empty lattice |
| DataFlow.InStateOfOneOut | project/erp/node_modules/_eschecker@0.0.5@eschecker/lib/data-flow-analysis/work-list-data-flow-analysis.js:88-91 | a node with a single predecessor out state takes that state unjoined |
| DataFlow.InStateJoins | project/erp/node_modules/_eschecker@0.0.5@eschecker/lib/data-flow-analysis/work-list-data-flow-analysis.js:88-92 | with several predecessor out states the in state is the join of the first with the rest, for the node's value |
| DataFlow.AddSuccessors | project/erp/node_modules/_eschecker@0.0.5@eschecker/lib/data-flow-analysis/work-list-data-flow-analysis.js:27-29 | the loop adds the successors' targets to the work list as the set insertion function does |
| DataFlow.AddAllAdds | project/erp/node_modules/_eschecker@0.0.5@eschecker/lib/data-flow-analysis/work-list-data-flow-analysis.js:28 | set insertion keeps the work list as a prefix, adds only the given nodes, adds all of them, and repeats no node |
| DataFlow.Turn | project/erp/node_modules/_eschecker@0.0.5@eschecker/lib/data-flow-analysis/work-list-data-flow-analysis.js:18-30 | one turn of the loop computes the step function: take the first node, record its out state, requeue on change |
| DataFlow.StepRecordsOutState | project/erp/node_modules/_eschecker@0.0.5@eschecker/lib/data-flow-analysis/work-list-data-flow-analysis.js:18-25 | a step records the transfer of the joined in state as the node's out state; the node stays queued only if it changed and is its own successor; the work list repeats no node |
| DataFlow.StepRequeuesOnlyOnChange | project/erp/node_modules/_eschecker@0.0.5@eschecker/lib/data-flow-analysis/work-list-data-flow-analysis.js:26-30 | a step without change just drops the node; with a change it queues every successor after the waiting nodes and nothing else |
| DataFlow.InitialWorkList | project/erp/node_modules/_eschecker@0.0.5@eschecker/lib/data-flow-analysis/work-list-data-flow-analysis.js:13-14 | the initial work list holds only nodes of the graph's reachable universe |
| DataFlow.InitialWorkListIsStartNodes | project/erp/node_modules/_eschecker@0.0.5@eschecker/lib/data-flow-analysis/work-list-data-flow-analysis.js:13-14 | with no start, or a null start, the work list is all graph nodes; with a start it is the nodes from the start to the exits |
| DataFlow.Analyse | project/erp/node_modules/_eschecker@0.0.5@eschecker/lib/data-flow-analysis/work-list-data-flow-analysis.js:12-34 | the work-list loop computes the iteration function from the initial work list and an empty out map |
| DataFlow.RunWorkList | project/erp/node_modules/_eschecker@0.0.5@eschecker/lib/data-flow-analysis/work-list-data-flow-analysis.js:17-31 | the loop, from any work list and out map, returns exactly what the turn-by-turn iteration function gives |
| DataFlow.IterateRecordsEveryNode | project/erp/node_modules/_eschecker@0.0.5@eschecker/lib/data-flow-analysis/work-list-data-flow-analysis.js:17-33 | when the iteration ends, every queued node and every node recorded before has an out state |
| DataFlow.AnalyseRecordsEveryStartNode | project/erp/node_modules/_eschecker@0.0.5@eschecker/lib/data-flow-analysis/work-list-data-flow-analysis.js:12-34 | every node of the initial work list has an out state in the result |

## Left out

- The Tornado handlers, routing, headers, server start-up and error writer (haole_erp/erp_service.py:15-25,62-84) are left out because they are HTTP input and output. Request arguments enter the model as a parameter.
- The MySQL helpers (haole_erp/erptoolbox.py:6-36) are left out because they are database input and output. Query results enter the model as parameters, and inserts are modelled as the statement and rows handed to `executemany`.
- `json.dumps` is not modelled as text. The serializer produces a structured JSON value, and keeping non-ASCII characters literal is a property of that encoding step only.
- `datetime.strptime` is modelled only for the zero-padded `%Y-%m-%d` form. Its other accepted spellings are not captured.
- The Immutable.js map order is modelled only as its small-map order: `set` keeps a key's position, a new key goes last, and `delete` moves the last entry into the gap. The hashed order of larger maps does not appear in any property proved here.
- TypeEnvironments.Substitute: the cascading worklist runs under a `fuel` bound and yields `None` when the bound runs out, because the source loop has no termination argument. The source has no bound.
- TypeEnvironments.ReplaceTypes: runs under the same `fuel` bound as `Substitute`.
- ControlFlow.ExitSearchAsWritten: runs under a `fuel` bound for the same reason.
- Types.Substitute: the rest of the model (TypeEnvironments.Substitute, ReplaceTypes, the cascade lemmas and the unifier) uses the corrected array rule, which substitutes the properties also when the element type changes. `SubstituteAsWritten` is the rule as written; it agrees with the corrected one on every type without an array inside.
- Object identity is modelled as value equality. The `!==` tests of `substitute` (array-type.js:65, and `substituted !== type` at type-environment.js:93) compare the type values, so two distinct instances with equal fields count as one. `same` compares ids, as the source does.
- ErpToolbox.EncodeDict: when a row holds both an old date and a value of an unknown type, the error raised depends on the dictionary's hash order. The model raises TypeError then.
- ErpToolbox.EncodeDocument: makes the same choice for the first row that cannot be written.
- Unification.UnifyParametrized: the failing assertion of `MaybeType.withTypeParameters` is modelled as the error it raises. The evidently intended Maybe of the unified parameter is not modelled.
- EnvironmentCascade.SubstituteCascadeSettles: covers the cascades whose queued changes change no substituted entry further. Longer cascades are described pass by pass only, by the TypeEnvironments lemmas.
- `json.loads` is a parameter of the insert handler. It is assumed to decode to a list of objects; a payload of another shape is folded into an error the parameter chooses.
- DataFlow.Analyse: runs under a `fuel` bound for the same reason.
- DataFlow.RunWorkList: the loop of `analyse` runs under the same `fuel` bound.
- TypeEnvironments.ReplaceTypesReplacesVariable: states the replacement for an environment of one entry only. Cascades across several entries are covered by the pass lemmas.
- Generators are modelled as sequences computed in full: `getAllSymbols`, `getNodesToExit`, `getExitEdges` and `getNodes`. Laziness, and a caller that stops early, are not captured.
- Assertion messages are kept as constant strings. Symbol names are not interpolated into them.
- `toString`, `prettyName` (including FunctionType's "this.(p1, p2) -> r" form), `dump` and the graphviz output are left out because they only format text.
- The asserts in the FunctionType constructor (project/erp/node_modules/_eschecker@0.0.5@eschecker/lib/semantic-model/types/function-type.js:19-21) hold by construction: the datatype's fields are a sequence of types and a type.
- `ParameterIndependent` operators define no parameter types. Their `refine` never asks for them.
- The `unify` callback of `refine` is a parameter. It is a function over the caller's state, so the order of its calls is visible.
- The searches over the control-flow graph take a ghost set of nodes that is closed under successors. It stands for the finite part of the heap the graph lives in, and it gives the searches their termination measure.
- Node annotations are opaque numbers. `getEdges` (project/erp/node_modules/_eschecker@0.0.5@eschecker/lib/cfg/control-flow-graph.js:54-60) is left out because nothing in the modelled core uses it.
- DataFlow.Analyse: the model does not prove that the result is a fixpoint of the transfer and join functions, because that needs lattice laws the abstract hooks do not promise. Out states that JavaScript treats as falsy in `outSets.get(..) || empty` are not modelled; a missing entry falls back to the empty lattice.
- DataFlow.Analyse: a start value is falsy only when it is `null`. Other falsy JavaScript values are not modelled.
- Symbol references are a set, so adding a node twice changes nothing. That follows from the set union and has no lemma of its own.
- The AST-bound parts of the checker are not part of this model: the CFG builder, symbol extraction, the Hindley-Milner driver and the refinement rules other than the binary operators. They depend on Babel traversal and mutable contexts.

## Findings

| source | as written | input that shows it | evidently intended | confidence | as-written member | corrected member |
|---|---|---|---|---|---|---|
| haole_erp/erp_service.py:52,55 | the column list comes from the last kept row, but the placeholder count comes from the last row iterated, even when that row is skipped | a complete row with `material_name`, `vendor`, `count` and `enter_date`, then a row holding only an empty `material_name`; the statement names 4 columns but has 1 placeholder | the placeholders match the column list of the kept rows | not executed | ErpService.PlaceholderMismatch | ErpService.PlaceholdersMatchColumns |
| project/erp/node_modules/_eschecker@0.0.5@eschecker/lib/semantic-model/types/array-type.js:63-66 | when the element type changes, `substitute` builds the new array from the new element type and the old properties, so the properties are not substituted | an array of a variable α with a custom property of type α, substituting α by number; the property keeps type α | the properties are substituted as well, as when the element type is unchanged | not executed | TypeLaws.ArraySubstituteKeepsStaleProperty | TypeLaws.SubstituteMatchesReference |
| project/erp/node_modules/_eschecker@0.0.5@eschecker/lib/semantic-model/types/array-type.js:14-19,104-159 | "splice" is listed as a built-in property, but the built-in switch has no case for it | on an array, `hasProperty` of the name "splice" holds, but `getType` of it fails the assertion of the switch's default case | every listed built-in has a type | not executed | TypeLaws.SpliceHasPropertyWithoutType | TypeLaws.HasPropertyHasType |
| project/erp/node_modules/_eschecker@0.0.5@eschecker/lib/type-inference/unification-rules/t-null-unification-rule.js:11-14 | the null rule and the any rule both accept the pair (null, any), so unification with the default rule set fails as ambiguous | unify null with any | exactly one rule accepts null with any, as the undefined rule already excludes Any | not executed | Unification.NullAnyAmbiguous | Unification.CorrectedRulesUnambiguous |
| project/erp/node_modules/_eschecker@0.0.5@eschecker/lib/cfg/control-flow-graph.js:67-82 | a node queued twice before it is processed is processed twice, and its exit edges are yielded twice | the diamond a→b, a→c, b→d, c→d, d→exit; the edge d→exit is yielded twice | each exit edge is yielded once | not executed | ControlFlow.DiamondYieldsExitEdgeTwice | ControlFlow.ExitEdgesFoundOnce |
