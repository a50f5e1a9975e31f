# CSV loader

A Dafny model of the CSV loader of a small D3 chart dashboard, found in
`load_files.js`. It has two functions:

- `parseCSVLine` splits one line into field values. It walks the characters
  once and keeps one flag, `inQuotes`. A double quote flips the flag and is
  dropped. A comma outside quotes ends the current field. Every other
  character is appended to the current field. At the end, every value goes
  through a regular-expression unwrap of one enclosing pair of quotes.
- `loadCSV` fetches a file, trims the text and splits it on `\n`. The first
  line is the header. The load fails when:
  - the fetch is not `ok`;
  - there are fewer than two lines;
  - a required column is absent from the parsed header.

  Otherwise each data line is parsed. A line whose field count differs from
  the header's is skipped. Every other line becomes a row object that maps
  each trimmed header name to the trimmed value at the same index. The row
  is handed to the optional transform. The record is kept unless the
  transform returns a falsy value or throws. If no record survives, the
  load fails; otherwise the kept records are returned in line order.

Files:

- `wrappers.dfy`: `Option` and `Result`.
- `js_strings.dfy`: the JavaScript string built-ins the loader relies on, as
  functions with their properties:
  - `trim`, with the ECMAScript white-space and line-terminator set;
  - `split` on a one-character separator.

  `Join` (one-character separator) is the inverse of `split`, used to state
  the round-trip properties. The loader itself calls `join` only to build
  the error message, which is left out.
- `csv_line.dfy`: `parseCSVLine`.
  - The method `ParseCSVLine` keeps the source's loop. It is proved equal
    to `ParseLine`, which is built from the one-step function `Step`.
  - `ParseLine` is related by lemmas to two definitions that read only the
    characters of the line: `SeparatorCount` and `RemoveQuotes`.
- `csv_loader.dfy`: `loadCSV`.
  - The method `LoadCSV` keeps the row loop, including its `continue`.
  - The method `BuildRow` keeps the `headers.forEach` loop.
  - Both are proved equal to the functions `Load` and `RowOf`, whose
    outcomes are characterised by lemmas.
  - Worked examples show the loader's behaviour on concrete files.

The fetch is a parameter: a `Response` value carrying the status, the
status text and the body text. The caller's transform is a parameter too: a
total function from the row object to `Keep(record)`, `Falsy` or `Throws`.
With no transform, the loader uses `NoTransform`, which keeps the row object
itself.

## Model

| member | source | states |
|---|---|---|
| CsvLine.ParseCSVLine | load_files.js:78-101 | The character loop followed by the unwrap returns exactly the fields `ParseLine` defines. |
| CsvLine.FieldCount | load_files.js:83-97 | There is always at least one field. There is exactly one more field than there are commas met outside quotes, that is, commas preceded by an even number of `"`. |
| CsvLine.ParseLineIsScan | load_files.js:86-100 | No field contains a `"`, because a quote only flips the mode. So the final regex unwrap never changes a value, and the fields are the loop's raw values. |
| CsvLine.JoinFields | load_files.js:83-97 | Joining the fields with `,` gives the line with every `"` deleted. No character is lost or reordered except the quotes. |
| CsvLine.QuoteFreeRoundTrip | load_files.js:83-97 | For a line without `"`, the fields are the line's `split(',')`, no field contains a comma, and joining them with `,` reproduces the line. |
| CsvLine.ScanAfter | load_files.js:83-97 | Once a field has been pushed and no quoted span is open, the loop goes on exactly as it would from the start of the rest of the line. |
| CsvLine.SplitAtSeparator | load_files.js:86-92 | A comma preceded by an even number of `"` ends a field: the line parses as the fields of the text before that comma followed by the fields of the text after it. |
| CsvLine.NoSeparatorField | load_files.js:83-97 | A line with no comma outside quotes is a single field: the line with every `"` deleted. With `SplitAtSeparator` this fixes the fields of every line. |
| CsvLine.TrailingSeparator | load_files.js:88-97 | A line that ends in a comma outside quotes has an empty last field. |
| CsvLine.QuotedCommaExample | load_files.js:86-92 | A comma inside quotes is data: `"a,b",c` parses to `a,b` and `c`. |
| CsvLine.TrailingCommaExample | load_files.js:88-97 | `a,b,` parses to `a`, `b` and an empty field. |
| CsvLine.ScanQuoteParity | load_files.js:86-87 | After reading a prefix, `inQuotes` holds exactly when the prefix has an odd number of `"`. |
| CsvLine.ScanIsSplit | load_files.js:83-97 | On a line without quotes, the loop's values plus the current value are the `split(',')` of what has been read, and no quoted span is open. |
| CsvLoader.LoadCSV | load_files.js:9-71 | Once the response is known, the loader returns exactly `Load`. This covers the error outcomes and their order: fetch failure, insufficient data, missing columns, no valid rows. On success the records are non-empty. |
| CsvLoader.BuildRow | load_files.js:47-50 | The `forEach` loop builds exactly `RowOf`: each trimmed header name is assigned the trimmed value at its index, in column order. |
| CsvLoader.RowOfKeys | load_files.js:47-50 | The row object's keys are exactly the trimmed header names. |
| CsvLoader.RowOfValue | load_files.js:48-50 | Each trimmed name holds the trimmed value of the last column with that name. With duplicate names, the later column overwrites the earlier one. |
| CsvLoader.RowOutcome | load_files.js:40-56 | A data line yields a record exactly when its field count equals the header count and the transform returns a truthy value. The record is what the transform returned. A line is dropped when the count is wrong, the result is falsy, or the transform throws. |
| CsvLoader.NoTransformKeepsRow | load_files.js:53-55 | Without a transform, every line with the header's field count is kept as its row object. |
| CsvLoader.SurvivorsAreKeptRows | load_files.js:37-60 | The surviving records correspond one to one, in line order, to the kept lines. A line is kept exactly when it yields a record, and the k-th record is the record of the k-th kept line. |
| CsvLoader.MissingMembers | load_files.js:29-34 | A name is reported missing exactly when it is required and is not an (untrimmed) header field. |
| CsvLoader.MissingAppend | load_files.js:30 | The missing list keeps the order of `requiredColumns`: it is an order-preserving filter. |
| CsvLoader.BlankBodyIsInsufficient | load_files.js:18-23 | After a successful fetch, an empty or all-whitespace body fails with insufficient data. |
| CsvLoader.InsufficientDataIff | load_files.js:19-23 | After a successful fetch, the load fails with insufficient data exactly when the trimmed body contains no `\n`. |
| CsvLoader.MissingColumnsIff | load_files.js:26-34 | With at least two lines, the load fails with missing columns exactly when some required name is absent from the parsed header. The error lists exactly `Missing`. |
| CsvLoader.MissingColumnsBeforeRows | load_files.js:26-38 | Once a column is missing, neither the data lines nor the transform affect the result: the check precedes the row loop. |
| CsvLoader.NoValidRowsIff | load_files.js:62-64 | Once the header is accepted, the load fails with no valid rows exactly when every data line is dropped. |
| CsvLoader.LoadedRecords | load_files.js:37-66 | A successful load had an ok response, at least two lines and no missing column. It returns at least one record, one per kept data line, in line order, each exactly once. |
| CsvLoader.FetchFailedOrLoaded | load_files.js:14-66 | A response that is not ok fails with `FetchFailed` carrying the path, status and status text. An ok response with at least two lines, no missing column and at least one data line that yields a record loads exactly the surviving records. |
| CsvLoader.TwoByTwoLoad | load_files.js:19-66 | A body of a two-field header line and a two-field data line, free of quotes, inner commas and line breaks, whose first header field does not start with white space and whose last data field does not end with it (so `trim` leaves the body unchanged), loads with no transform either as `MissingColumns` of the required names absent from the untrimmed header fields, or as the single row object. |
| CsvLoader.HeaderRowExample | load_files.js:19-66 | `h1,h2` / `v1,v2` loads as the single record {h1: v1, h2: v2}. |
| CsvLoader.UntrimmedHeaderExample | load_files.js:30-49 | With header `x ,y`, requiring `x` fails with `MissingColumns(["x"])`, although with no requirement the loaded row has the key `x`. The column check uses untrimmed names; the row uses trimmed ones. |
| CsvLoader.DuplicateHeaderExample | load_files.js:47-50 | With header `a,a`, the row `1,2` loads as {a: 2}. |
| CsvLoader.SkippedRowExample | load_files.js:38-60 | In `a,b` / `1` / `2,3`, the one-field line is skipped and the load goes on to {a: 2, b: 3}. |
| JsStrings.TrimIsSlice | load_files.js:19 | `trim` returns exactly the slice between the leading and trailing white-space runs. |
| JsStrings.TrimTrimmed | load_files.js:19 | A trimmed string has no white space at either end, and trimming again changes nothing. |
| JsStrings.JoinSplit | load_files.js:19 | Joining the pieces of `split(sep)` with `sep` gives back the string. |
| JsStrings.SplitJoin | load_files.js:19 | Splitting the join of separator-free pieces gives back the pieces. |
| JsStrings.SplitPiecesFree | load_files.js:19 | No piece of `split(sep)` contains `sep`. |

## Left out

- The network: `fetch` and `response.text()` are asynchronous I/O. The
  response is a `Response` parameter. A `fetch` that rejects (no response
  at all) is not modelled; it would propagate as a thrown error.
- Logging: the `console.warn` for skipped rows and the `console.error` in
  the outer handler only write diagnostics. The outer handler rethrows the
  same error, so it is equivalent to no handler.
- Error messages: each error is a `LoadError` constructor with the values
  the message interpolates (path, status, status text, missing names), not
  the message text.
- `requiredColumns` absent: it behaves exactly like an empty list, because
  filtering an empty list finds nothing missing. The model takes a
  sequence, and an absent option is `[]`.
- The concrete transforms in the `get*Data` wrappers (load_files.js:104
  onward) use `parseFloat`, `parseInt`, `isNaN` and `Date`. They are not
  modelled. The transform is an abstract parameter whose three outcomes
  cover keeping, a falsy result (including `0`, `""` and `NaN`) and a throw.
- The four chart files (`bar.js`, `donut.js`, `line.js`, `scatter.js`) are
  rendering code on D3 and the DOM. They are not part of this model.
- Strings are sequences of Unicode scalar values, not UTF-16 code units.
  `line[i]` on a surrogate pair is not modelled.
- The row object is a map from strings to strings. Assigning special
  property names such as `__proto__` on a plain JavaScript object does not
  create an own property; that is not modelled. The order of the object's
  keys is not modelled either: a map has none, while a JavaScript object
  lists integer-like keys first and the others in insertion order.
- A blank line in the middle of the body is a data line with one empty
  field. It is skipped only if the header has more than one column, which
  follows the code.
- The transform is a total function of the row object. A JavaScript
  transform is a closure and may keep state between rows or between loads;
  such a transform is not modelled. The four transforms in the `get*Data`
  wrappers keep none.
- Idempotence of a load is immediate in this model, since `Load` is a
  function of its inputs and the transform keeps no state; no separate
  lemma states it.
