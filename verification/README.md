# MongoDB dashboard: filter, field list and export, in Dafny

The dashboard is a browser client for a schema-less document store. It loads every
document of the selected collection and keeps them in memory. Three pure helpers in
`dashboard/src/App.jsx` shape that data:

- `applyFilter` keeps the documents whose chosen field matches a value. It uses one of
  the operators `equals`, `contains`, `startsWith`, `endsWith`, `greaterThan` or
  `lessThan`. The four text operators compare the lower-cased string forms of field and
  value, so they are case-insensitive. The two numeric operators compare the `Number`
  coercions of the field and the value instead.
- `extractFields` lists the field names offered in the filter form. These are all keys of
  all documents except `_id`, de-duplicated and sorted.
- `exportToExcel` turns the filtered documents into sheet rows. Array and object values
  become their serialised string, and an empty selection is refused.

This project models those helpers as pure Dafny functions and methods over immutable
values, and proves what they promise.

Modules, one per concept:

- `Wrappers` (`wrappers.dfy`): `Option` and `Result`.
- `Text` (`text.dfy`): the JavaScript string built-ins the helpers use. These are ASCII
  `toLowerCase`, `startsWith`, `endsWith`, `includes`, the default sort order, and decimal
  digit strings.
- `JsValues` (`values.dfy`): the JSON `Value` datatype and `Doc = map<string, Value>`.
  A missing key stands for `undefined`. The module also holds the coercions `String(v)`
  (`ToJsString`) and `Number(v)` (`ToNumber`, `ParseNumber`).
- `Sequences` (`sequences.dfy`): subsequences, given by an explicit increasing list of
  positions.
- `Filter` (`filter.dfy`): `applyFilter`. It holds the operator dispatch, the per-document
  callback `Matches`, and the scan.
- `Fields` (`fields.dfy`): `extractFields`, written as a method with the source's two
  nested loops, followed by the sort.
- `Export` (`export.dfy`): the row sanitising and the empty-selection check of
  `exportToExcel`.

`JSON.stringify` is a parameter `stringify: Value -> string` of the export functions.
Dafny maps have no key order, so JavaScript's insertion-ordered output cannot be
reproduced.

## Model

| member | source | states |
|---|---|---|
| `Filter.ApplyFilter` | dashboard/src/App.jsx:60-87 | An empty field or empty value returns the input unchanged. Otherwise the result has exactly the input documents that the callback accepts, none of them has the field missing or `null`, and the result is never longer than the input |
| `Filter.FilterDocs` | dashboard/src/App.jsx:63-86 | The `filter` scan holds exactly the input documents the callback accepts, and is no longer than the input |
| `Filter.ParseOperator` | dashboard/src/App.jsx:70-85 | The `switch` falls to `default` exactly for names outside the six known operators |
| `Filter.OperatorNameRoundTrip` | dashboard/src/App.jsx:70-82 | Each known operator's name dispatches back to that operator |
| `Filter.ApplyFilterSelectsMatching` | dashboard/src/App.jsx:63-86 | With an active filter, some increasing list of positions spells the result out of the input, and it holds exactly the positions whose document matches. So order and repeated documents are kept |
| `Filter.FilterDocsPositions` | dashboard/src/App.jsx:63-86 | The scan's result is spelled out of its input by an increasing list of positions that holds exactly the positions whose document matches |
| `Filter.FilterDocsKeepsAllMatching` | dashboard/src/App.jsx:63-86 | A list whose documents all match passes through the scan unchanged |
| `Filter.FilterDocsNoneMatching` | dashboard/src/App.jsx:63-86 | A list where no document matches scans to the empty list |
| `Filter.ApplyFilterSubsequence` | dashboard/src/App.jsx:60-87 | The result is always a subsequence of the input |
| `Filter.ApplyFilterIdempotent` | dashboard/src/App.jsx:60-87 | Filtering the filtered view again with the same settings changes nothing |
| `Filter.Matches` | dashboard/src/App.jsx:63-85 | The callback rejects a document whose field is missing or `null`, and the `default` case accepts every other document |
| `Filter.EqualsMeaning` | dashboard/src/App.jsx:64-72 | `equals` keeps a document exactly when its field is present and the lower-cased string forms of field and value are equal |
| `Filter.ContainsMeaning` | dashboard/src/App.jsx:64-74 | `contains` keeps a document exactly when its field is present and the lower-cased value occurs at some position of the lower-cased field |
| `Filter.StartsWithMeaning` | dashboard/src/App.jsx:64-76 | `startsWith` keeps a document exactly when its field is present and the lower-cased value is a prefix of the lower-cased field |
| `Filter.EndsWithMeaning` | dashboard/src/App.jsx:64-78 | `endsWith` keeps a document exactly when its field is present and the lower-cased value is a suffix of the lower-cased field |
| `Filter.ContainsFilterExact` | dashboard/src/App.jsx:60-74 | Over a collection, `contains` returns exactly the documents with the field present whose lower-cased string form has the lower-cased value as a substring |
| `Filter.UnrecognisedKeepsPresent` | dashboard/src/App.jsx:63-85 | Any operator name outside the known six keeps exactly the documents whose field is present and not `null` |
| `Filter.NumericOperatorsMeaning` | dashboard/src/App.jsx:79-82 | `greaterThan` and `lessThan` keep a document exactly when both `Number` coercions give numbers that compare that way, and never both at once |
| `Filter.NumericFilterOnNaN` | dashboard/src/App.jsx:79-82 | A value that is not a number empties both numeric filters |
| `Filter.NumberMatchesItsSpelling` | dashboard/src/App.jsx:67-82 | A numeric field searched with its own decimal spelling is kept by `equals` and by neither `greaterThan` nor `lessThan` |
| `Filter.MatchImplications` | dashboard/src/App.jsx:64-85 | Per document, `equals` implies `startsWith` and `endsWith`, each of those implies `contains`, and every operator implies the `default` case |
| `Filter.FilterDocsMonotone` | dashboard/src/App.jsx:63-86 | When one operator implies another on every document, the first result is a subsequence of the second |
| `Filter.ApplyFilterNests` | dashboard/src/App.jsx:60-87 | The same nesting, for `applyFilter` given two operator names |
| `Filter.TextResultsNest` | dashboard/src/App.jsx:60-78 | For every filter setting, over one collection, the `equals` result lies inside the `startsWith` and `endsWith` results, and those lie inside the `contains` result |
| `Filter.ScanTextResultsNest` | dashboard/src/App.jsx:63-78 | The same nesting for the `filter` scan with each text operator's callback |
| `Filter.EqualsWithinContains` | dashboard/src/App.jsx:60-78 | For every filter setting, over one collection, the `equals` result lies inside the `contains` result, and the result lengths grow from `equals` through `startsWith` or `endsWith` to `contains` |
| `Filter.ResultsWithinPresent` | dashboard/src/App.jsx:63-85 | Every operator's result lies inside the result of an unrecognised operator |
| `Text.Lower` | dashboard/src/App.jsx:67-68 | `toLowerCase` keeps the length, leaves no upper-case letter, keeps every other character, and maps each upper-case letter to its lower-case letter |
| `Text.LowerIdempotent` | dashboard/src/App.jsx:67-68 | Lower-casing twice is lower-casing once |
| `Text.StartsWith` | dashboard/src/App.jsx:76 | The character-by-character test holds exactly when the pattern equals the leading slice of the same length |
| `Text.EndsWith` | dashboard/src/App.jsx:78 | The character-by-character test from the back holds exactly when the pattern equals the trailing slice |
| `Text.Includes` | dashboard/src/App.jsx:74 | The left-to-right search succeeds exactly when the pattern occurs at some position |
| `Text.EqualStartsAndEnds` | dashboard/src/App.jsx:71-78 | Equal strings are prefix and suffix of each other |
| `Text.StartsWithIncludes` | dashboard/src/App.jsx:73-76 | A prefix is included |
| `Text.EndsWithIncludes` | dashboard/src/App.jsx:73-78 | A suffix is included |
| `Text.Below` | dashboard/src/App.jsx:56 | A name never sorts before itself, and a proper prefix sorts before every longer name it starts |
| `Text.BelowIrreflexive` | dashboard/src/App.jsx:56 | No name sorts before itself |
| `Text.BelowTransitive` | dashboard/src/App.jsx:56 | The sort order is transitive |
| `Text.BelowTotal` | dashboard/src/App.jsx:56 | Of two different names, one sorts before the other |
| `Text.BelowAsymmetric` | dashboard/src/App.jsx:56 | Two names never sort before each other |
| `Text.NatToDecimal` | dashboard/src/App.jsx:67 | The decimal spelling of a natural number is a non-empty digit string with no leading zero, whose value is the number |
| `JsValues.IntToDecimal` | dashboard/src/App.jsx:67 | `String(n)` for an integer starts with a minus sign exactly when the integer is negative. The rest is a non-empty digit string with no leading zero, and its value is the magnitude of the integer |
| `JsValues.ParseNumber` | dashboard/src/App.jsx:80-82 | `Number(s)` is a number exactly for the empty string, a digit string, or a sign followed by digits. The empty string gives 0, digits give their decimal value, `+` keeps the value and `-` negates it |
| `JsValues.ParseNumberSpellings` | dashboard/src/App.jsx:80-82 | A leading zero or a `+` in front of a digit string leaves its number unchanged, and a `-` negates it |
| `JsValues.NumberRoundTrip` | dashboard/src/App.jsx:79-82 | `Number(String(n)) == n` for every integer |
| `JsValues.ToNumber` | dashboard/src/App.jsx:79-82 | `Number(v)` gives 0 for `null`, 1 or 0 for booleans, a number's own value, no number for an object, and for everything but `null` and booleans the same as parsing `String(v)` |
| `JsValues.ToJsString` | dashboard/src/App.jsx:67 | `String(v)` gives `null`, `true` or `false` for those values, a number's decimal spelling (`IntToDecimal`), the text itself for a string, `[object Object]` for an object, the empty string for an empty array, and a one-element array's element text |
| `JsValues.ArrayStringOfCons` | dashboard/src/App.jsx:67 | An array's string form is its first element's text (empty for `null`), followed by a comma and the rest's string form when more elements follow |
| `JsValues.LowerOfDecimal` | dashboard/src/App.jsx:67 | Lower-casing leaves a number's string form unchanged |
| `Fields.FieldSetExtend` | dashboard/src/App.jsx:49-55 | Visiting one more document adds exactly its non-`_id` keys |
| `Fields.Insert` | dashboard/src/App.jsx:56 | Inserting into a strictly sorted list keeps it strictly sorted and adds exactly the new name, once |
| `Fields.SortFields` | dashboard/src/App.jsx:56 | `Array.from(set).sort()` is strictly sorted, has the same members as the set, and has the same size |
| `Fields.ExtractFields` | dashboard/src/App.jsx:47-57 | The field list is strictly sorted, so it has no duplicates. It never contains `_id`, and it holds exactly the non-`_id` keys found in at least one document |
| `Fields.SortedUnique` | dashboard/src/App.jsx:56 | Two strictly sorted lists with the same members are equal, so the field list depends only on which keys occur |
| `Fields.SortedHeadLeast` | dashboard/src/App.jsx:56 | The first name of a strictly sorted list sorts before every other name, and the rest are exactly the other members |
| `Sequences.SubsequenceLength` | dashboard/src/App.jsx:63 | A filtered list is never longer than its source, which bounds each operator's result by the next wider one |
| `Sequences.SubsequenceTransitive` | dashboard/src/App.jsx:63 | A subsequence of a subsequence is a subsequence, which is how the operator results chain |
| `Export.SanitizeValue` | dashboard/src/App.jsx:195-199 | An array or object cell becomes its serialised string. Every other value, `null` included, is copied. No cell is left an object |
| `Export.SanitizeDoc` | dashboard/src/App.jsx:192-202 | Each row has exactly its document's keys, is flat, copies the scalar values and serialises the object values |
| `Export.SanitizeFlatIsIdentity` | dashboard/src/App.jsx:194-200 | A document with no object values is exported unchanged |
| `Export.SanitizeIdempotent` | dashboard/src/App.jsx:192-202 | Sanitising a row a second time changes nothing |
| `Export.ExportRows` | dashboard/src/App.jsx:185-202 | An empty selection is refused with `NoDataToExport`. Otherwise there is one flat row per document, in order, with the same keys, scalar values copied and object values serialised |
| `Export.ExportFlatIsIdentity` | dashboard/src/App.jsx:192-202 | Exporting documents that are all flat hands them over unchanged |
| `Export.ExportOfFilteredView` | dashboard/src/App.jsx:186-189 | Exporting the current view is refused exactly when the view is empty. With no filter, that means the collection is empty. With an active filter, it means no document matches |

## Left out

- `backend/server.js` is not part of this model. Its route handlers forward requests to
  the database driver and hold no logic of their own. That includes the model cache
  `getModel`.
- React state, `useEffect` wiring, loading flags, `alert`, rendering, and the axios
  requests with their refetch after each change are left out. They are UI plumbing and
  asynchronous I/O. The effect at dashboard/src/App.jsx:90-93 recomputes the view from
  the unfiltered data. `ApplyFilterIdempotent` only shows that a filtered view is a fixed
  point of the same filter.
- The XLSX worksheet, workbook and file write (dashboard/src/App.jsx:204-207) are left
  out, because they are foreign library calls. So are the sheet and file names taken
  from `selected`.
- `JsValues.IntToDecimal`: numbers are unbounded integers, not IEEE doubles. JavaScript
  writes magnitudes of 10^21 and above in exponent form (`1e+21`) and cannot hold every
  integer beyond 2^53 exactly, so `String`, `Number` and their round trip are modelled
  only for integers that JavaScript spells out in full and represents exactly.
- Rows are maps, so the column order that `for...in` gives at
  dashboard/src/App.jsx:194-200, and that the sheet inherits, is not modelled.
- `JSON.stringify` is a parameter. Its exact formatting and key order are not modelled.
- Numbers are integers. `String` and `Number` of fractions, exponents, `NaN`,
  `Infinity` and `-0` are not modelled.
- `JsValues.ParseNumber`: does not model all of `Number(string)`. It returns `NaN` for
  surrounding whitespace, decimal points, exponents and hex, binary or octal prefixes,
  and for a string of only whitespace (JavaScript gives 0 there).
- `Text.Lower`: lower-cases ASCII letters only. Unicode case mapping is not modelled.
- `Text.Below`: compares Unicode code points. JavaScript's default `sort` compares
  UTF-16 code units. The two differ only between supplementary-plane characters and
  characters from U+E000 to U+FFFF.
- `Filter.Matches` reads only a document's own keys. JavaScript's `doc[field]` also sees
  inherited properties such as `constructor`. This matters only for a field that shares
  such a name and is missing from some documents.
- `JsValues.ToJsString` of an object is always `[object Object]`. Values with their own
  `toString` (for example `Date`) do not arrive through JSON, so they are not modelled.
