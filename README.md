# iTunes Connect reporter: response decoders

This project models the four response decoders of the reporter library. Each
turns the raw body of an iTunes Connect reporter response into a PHP array,
and each gives the empty array when the body is unusable.

- `FinanceGetReport::process` and `SalesGetReport::process`:
  - inflate a gzip body;
  - split the text into lines and take the first line as the tab-separated header;
  - combine every later non-blank line with the header into one row.
- The finance variant adds one rule: a line of exactly two fields, under a
  header of another width, is a named total (`'Total' => '100'`), not a row.
- `SalesGetAccounts::process` and `SalesGetVendors::process`:
  - parse an XML body;
  - give `[]` when the parse fails, or when the first `<Account>` or `<Vendor>` child is missing or empty;
  - otherwise fold over those children, in document order.

## Modules

- `Results`: `Option` and `Result`.
- `Php`: the parts of the PHP runtime the decoders rely on:
  - `empty()` on strings (`IsEmpty`: `""` and `"0"`);
  - `explode` and `implode`;
  - the `(int)` cast of a string (`IntCast`): leading whitespace, an optional sign, then the longest run of digits, else 0;
  - PHP's ordered array as a sequence of key/value pairs:
    - `Assign` overwrites an existing key in place and appends a new one;
    - `Lookup` reads a key;
    - `Combine` is `array_combine`, where a repeated key keeps its first position and its last value.
- `TabularReport`: the shared line-by-line decode. A flag `totals` switches the finance rule on.
  - The result array is a `Report`: its entries in insertion order, and the next integer key.
  - `Process` is the `foreach` loop of the source, proved equal to the fold `Decode`.
  - `Decoded` states what the fold holds.
- `FinanceGetReport` and `SalesGetReport`: the two processors, with their own properties and the worked examples of their tests.
- `Xml`: the element tree the XML parser yields, `$element->Tag` iteration (`Named`), and `(string) $element->Tag` (`ChildText`).
- `SalesGetAccounts` and `SalesGetVendors`: the two listing processors, each a `Process` method with a loop, proved against a decode function.

Calls into code outside the core are parameters:

- `gzdecode` is `inflate: string -> Option<string>`, where `None` means it failed.
- The `SimpleXMLElement` constructor is `parse: string -> Option<Element>`, where `None` means it threw.
- SimpleXML's `empty()` on an element is `blank: Element -> bool`.

When `array_combine` is handed a line whose width differs from the header's, it raises under PHP 8. The model returns this as `Err(WidthMismatch(headerCount, fieldCount))`, which escapes `process()` just as the exception does.

## Model

| member | source | states |
|---|---|---|
| TabularReport.Decode | src/Responses/FinanceGetReport.php:16-53 | definition (no contract): `[]` for an empty or `"0"` body, a failed inflate or an empty or `"0"` inflated text; otherwise `DecodeText` |
| TabularReport.DecodeText | src/Responses/FinanceGetReport.php:28-30 | definition (no contract): splits the text at newlines, reads the first line's tab fields as the header and folds `DecodeLines` over the remaining lines |
| TabularReport.DecodeLines | src/Responses/FinanceGetReport.php:32-50 | definition (no contract): folds `Step` over the lines from the empty array, stopping at the first failure |
| TabularReport.Step | src/Responses/FinanceGetReport.php:35-49 | definition (no contract): one turn of the loop. A blank line is skipped, a total line is `Put`, a line as wide as the header is `Append`ed combined with the header, any other line is `Err(WidthMismatch(header width, line width))` |
| TabularReport.IsTotalLine | src/Responses/FinanceGetReport.php:42 | definition (no contract): the total rule is on, the line has exactly two fields, and the header does not |
| TabularReport.Put | src/Responses/FinanceGetReport.php:43 | definition (no contract): assigns the amount under the string key of the name, the next integer key unchanged |
| TabularReport.Append | src/Responses/FinanceGetReport.php:45 | definition (no contract): appends the row under the next integer key and advances that key by one |
| TabularReport.Process | src/Responses/FinanceGetReport.php:16-53 | the loop over the lines after the header computes the fold `Decode`; an empty or `"0"` body, a failed inflate and an inflated text that is empty or `"0"` each give the empty array |
| TabularReport.Decoded | src/Responses/FinanceGetReport.php:34-50 | the decode succeeds exactly when every non-blank, non-total line is as wide as the header. On success: the rows are those lines combined with the header, under keys 0, 1, ... in line order; the next integer key is their count; keys are distinct; each total name holds the amount of its last total line |
| TabularReport.BlankLinesIgnored | src/Responses/FinanceGetReport.php:34-37 | decoding the lines is decoding only their non-blank ones |
| TabularReport.BlankLineAnywhere | src/Responses/SalesGetReport.php:33-36 | a blank line inserted anywhere between other lines changes nothing |
| TabularReport.RowLine | src/Responses/FinanceGetReport.php:44-48 | a non-total line as wide as a header of distinct names appends one row `headers[i] => cells[i]` under the next integer key |
| TabularReport.HeaderConsumed | src/Responses/FinanceGetReport.php:28-30 | the first line is used only as the header: the decode of the text is the fold over the lines after it |
| TabularReport.ErrorStops | src/Responses/FinanceGetReport.php:45-48 | once a line fails to combine, later lines do not change the outcome |
| TabularReport.DecodeEncoded | src/Responses/FinanceGetReport.php:23-30 | a body inflating to a header line and further lines decodes as the fold over those lines under that header |
| TabularReport.RowsRoundTrip | src/Responses/SalesGetReport.php:38-43 | rows as wide as the header, written out as tab-joined lines, read back as those rows under keys 0..n-1, with empty cells kept as `''` |
| TabularReport.WideRowNotBlank | src/Responses/FinanceGetReport.php:35 | a line of two or more fields is never skipped as blank |
| TabularReport.NonBlankAppend | src/Responses/FinanceGetReport.php:34-37 | the non-blank lines of two stretches are the non-blank lines of each, in order |
| TabularReport.RowsOf | src/Responses/FinanceGetReport.php:45-48 | one row entry per fitting line, the i-th under integer key i |
| TabularReport.TotalStep | src/Responses/FinanceGetReport.php:42-43 | a total line keeps the description of the result: rows untouched, the name now holding the new amount |
| TabularReport.RowStep | src/Responses/FinanceGetReport.php:44-48 | a row line keeps the description of the result: one more row under the next integer key, totals untouched |
| TabularReport.MismatchStep | src/Responses/FinanceGetReport.php:42-48 | a non-blank line that is neither a total nor as wide as the header leaves the row lines unfit |
| TabularReport.IndexedAssignName | src/Responses/FinanceGetReport.php:43 | assigning a named total leaves the integer-keyed rows as they were |
| TabularReport.IndexedKeysBelow | src/Responses/FinanceGetReport.php:45 | an integer key carried by no row is not a key of the array |
| FinanceGetReport.Process | src/Responses/FinanceGetReport.php:16-53 | the finance decode is the tabular decode with the total rule on; an empty body or a failed or falsy inflate gives `[]` |
| FinanceGetReport.TotalLine | src/Responses/FinanceGetReport.php:42-43 | under a header not two wide, `name<TAB>amount` stores the amount under the name. An existing name is overwritten in place with its position kept; a new name is appended; no other key changes; no integer key is used |
| FinanceGetReport.TwoColumnHeader | src/Responses/FinanceGetReport.php:42 | under a two-column header no line is a total: the finance decode equals the sales decode |
| FinanceGetReport.TotalsRoundTrip | src/Responses/FinanceGetReport.php:42-43 | total lines with distinct fresh names add one named entry each, in line order, and leave the next integer key alone |
| FinanceGetReport.LinesRoundTrip | src/Responses/FinanceGetReport.php:34-50 | row lines followed by total lines decode to the rows under 0..n-1 followed by the named totals |
| FinanceGetReport.RoundTrip | src/Responses/FinanceGetReport.php:16-53 | a body inflating to a header (not two wide), rows and totals decodes to exactly those rows and totals |
| FinanceGetReport.WorkedExample | tests/Responses/FinanceGetReportTest.php:22-43 | a body inflating to the test's literal text gives three rows, then `'Total' => '100'`, then `'Grand Total' => '500'` |
| FinanceGetReport.ExampleTextEncoded | tests/Responses/FinanceGetReportTest.php:87 | the test's literal text is the header line and the six later lines (a blank one, three rows, two totals) joined by newlines |
| FinanceGetReport.ExampleLinesSpelled | tests/Responses/FinanceGetReportTest.php:87 | the lines after the header are, literally, the three rows with a blank line after the first, then `Total\t100` and `Grand Total\t500` |
| FinanceGetReport.ExampleDecodeLines | tests/Responses/FinanceGetReportTest.php:87 | the blank line after the first row is skipped and the two trailing lines become totals |
| SalesGetReport.Process | src/Responses/SalesGetReport.php:16-47 | the sales decode is the tabular decode with the total rule off; an empty body or a failed or falsy inflate gives `[]` |
| SalesGetReport.KeptLines | src/Responses/SalesGetReport.php:33-44 | over non-blank lines: the decode succeeds exactly when every line is as wide as the header. It then holds one row per line under keys 0..n-1, with no named key. Otherwise it fails with the widths of the first misfit |
| SalesGetReport.Decoded | src/Responses/SalesGetReport.php:33-44 | the same over any lines, counting only the non-blank ones: the row count equals the number of non-blank lines after the header, and when a non-blank line is the first not as wide as the header, the decode fails with the header's width and that line's |
| SalesGetReport.FitStep | src/Responses/SalesGetReport.php:40-43 | a line as wide as the header appends the next row |
| SalesGetReport.RoundTrip | src/Responses/SalesGetReport.php:16-47 | a body inflating to a header and rows as wide as it decodes to exactly those rows under 0..n-1 |
| SalesGetReport.ExampleSkipsBlank | tests/Responses/SalesGetReportTest.php:85 | the blank line between the header and the data is absorbed |
| SalesGetReport.WorkedExample | tests/Responses/SalesGetReportTest.php:22-41 | a body inflating to the test's literal text gives the three rows, empty cells as `''`, and no named key |
| SalesGetReport.ExampleTextEncoded | tests/Responses/SalesGetReportTest.php:85 | the test's literal text is the header line, a blank line and the three row lines joined by newlines |
| TabularReport.ExampleHeaderLine | tests/Responses/SalesGetReportTest.php:85 | the tests' header line is the three header names joined by tabs |
| TabularReport.ExampleRowLines | tests/Responses/SalesGetReportTest.php:85 | the tests' three rows, joined by tabs, are the literal lines `Foo\tBar\tFoobar`, `Fizz\t\tFizzbuzz` and `\tTest\tTester` |
| SalesGetAccounts.AccountOf | src/Responses/SalesGetAccounts.php:32-38 | definition (no contract): the record of one `<Account>`, its `<Name>` text and the `(int)` cast of its `<Number>` text |
| SalesGetAccounts.Collect | src/Responses/SalesGetAccounts.php:31-39 | definition (no contract): `array_combine` of the accounts' numbers and records, which is the same as assigning each record under its number in turn |
| SalesGetAccounts.Decode | src/Responses/SalesGetAccounts.php:16-42 | definition (no contract): `[]` when the parse fails or `Xml.Listing` finds no usable `<Account>`, else `Collect` of the `<Account>` children |
| SalesGetAccounts.Process | src/Responses/SalesGetAccounts.php:16-42 | the loop over the `<Account>` children assigns `$accounts[$id]` in turn and computes `Decode`; a parse failure gives `[]` |
| SalesGetAccounts.Stored | src/Responses/SalesGetAccounts.php:31-38 | at most one entry per `<Account>`; every entry's key equals its `Number`; every record is that of some `<Account>`; keys are distinct |
| SalesGetAccounts.LastWins | src/Responses/SalesGetAccounts.php:35-38 | a number is looked up to the record of the last `<Account>` with that number; a number no account has is absent |
| SalesGetAccounts.NoAccount | src/Responses/SalesGetAccounts.php:23-27 | a document none of whose children is an `<Account>` decodes to the empty array |
| SalesGetAccounts.NonNumericNumber | src/Responses/SalesGetAccounts.php:32 | a `<Number>` text without digits, or no `<Number>` at all, gives number 0 |
| SalesGetAccounts.AccountRoundTrip | src/Responses/SalesGetAccounts.php:32-33 | an account written as `<Account><Name/><Number/></Account>` reads back as itself |
| SalesGetAccounts.RoundTrip | src/Responses/SalesGetAccounts.php:16-42 | accounts with distinct numbers, written as a document, decode to themselves in document order, each under its number |
| SalesGetAccounts.WorkedExample | tests/ReporterTest.php:260-283 | the one-account document gives `[1234567 => ['Name' => 'John Smith', 'Number' => 1234567]]` |
| SalesGetVendors.Ids | src/Responses/SalesGetVendors.php:30-33 | definition (no contract): the `(int)` cast of each `<Vendor>` text, in order |
| SalesGetVendors.Decode | src/Responses/SalesGetVendors.php:16-35 | definition (no contract): `[]` when the parse fails or `Xml.Listing` finds no usable `<Vendor>`, else `Ids` of the `<Vendor>` children |
| SalesGetVendors.Process | src/Responses/SalesGetVendors.php:16-36 | the loop appends the cast of each `<Vendor>` and computes `Decode`; a parse failure gives `[]` |
| SalesGetVendors.Listed | src/Responses/SalesGetVendors.php:23-33 | with a non-empty first `<Vendor>`, one number per `<Vendor>`, the i-th being the `(int)` cast of the i-th's text; without a `<Vendor>` child, `[]` |
| SalesGetVendors.RoundTrip | src/Responses/SalesGetVendors.php:30-33 | numbers written as `<Vendor>` children decode back to the same list, in order and with repeats |
| SalesGetVendors.SingleVendor | tests/Responses/SalesGetVendorsTest.php:10-26 | one vendor 1234567 gives `[1234567]` |
| SalesGetVendors.TwoVendors | tests/Responses/SalesGetVendorsTest.php:28-45 | vendors 1234567 and 9876543 give them in document order |
| Php.IsEmpty | src/Responses/FinanceGetReport.php:19 | definition (no contract): PHP's `empty()` on a string, true for `""` and `"0"` only |
| Php.Implode | src/Responses/FinanceGetReport.php:28 | definition (no contract): the pieces joined by the separator; the inverse of `Explode`, see `Php.ImplodeExplode` |
| Php.IntCast | src/Responses/SalesGetAccounts.php:32 | definition (no contract): skips leading whitespace, reads an optional sign and the longest digit run after it; no digits give 0 |
| Php.Lookup | src/Responses/SalesGetAccounts.php:35 | definition (no contract): the value of the first pair carrying the key, `None` when no pair does |
| Php.Combine | src/Responses/FinanceGetReport.php:45-48 | definition (no contract): `array_combine` as the assignment of each value under its key in turn, from an empty array |
| Php.ImplodeExplode | src/Responses/FinanceGetReport.php:28 | joining the pieces of `explode` with the separator gives the text back |
| Php.ExplodeImplode | src/Responses/FinanceGetReport.php:39 | splitting separator-free pieces joined by the separator gives the pieces back |
| Php.Explode | src/Responses/FinanceGetReport.php:28-29 | `explode` yields at least one piece, none holding the separator |
| Php.IntCastIntString | src/Responses/SalesGetAccounts.php:32 | `(int)` of a number's decimal form, followed by anything that does not start with a digit, is that number |
| Php.IntCastNoDigits | src/Responses/SalesGetAccounts.php:32 | `(int)` of a text without digits is 0 |
| Php.IntCastDigits | src/Responses/SalesGetVendors.php:32 | `(int)` of a digit run followed by a non-digit is the run's value |
| Php.IntCastNegative | src/Responses/SalesGetVendors.php:32 | `(int)` of `-` and a digit run is minus the run's value |
| Php.Assign | src/Responses/FinanceGetReport.php:43 | `$a[$k] = $v`: `$k` now holds `$v`; other keys keep their values; an existing key keeps its place; a new key is appended |
| Php.AssignFresh | src/Responses/FinanceGetReport.php:43 | assigning a key not present appends it at the end |
| Php.LookupKeys | src/Responses/SalesGetAccounts.php:35 | a key can be looked up exactly when it is among the keys |
| Php.CombineKeys | src/Responses/FinanceGetReport.php:45-48 | `array_combine` has distinct keys, exactly the given ones |
| Php.CombineLookup | src/Responses/FinanceGetReport.php:45-48 | in `array_combine`, each key holds the value paired with its last occurrence |
| Php.CombinePairs | src/Responses/FinanceGetReport.php:45-48 | `array_combine` has no more entries than keys, each entry one of the given pairs |
| Php.CombineDistinct | src/Responses/FinanceGetReport.php:45-48 | with distinct keys, `array_combine` pairs the keys with the values position by position |
| Xml.ChildText | src/Responses/SalesGetAccounts.php:33 | definition (no contract): the text of the first child with the tag, `""` when there is none |
| Xml.Listing | src/Responses/SalesGetAccounts.php:18-28 | definition (no contract): `None` when the parse failed, when no child has the tag or when the first such child is blank; otherwise the children with the tag |
| Xml.Named | src/Responses/SalesGetVendors.php:31 | `$XML->Vendor` visits no more elements than the children, all with that tag |
| Xml.NamedMembers | src/Responses/SalesGetAccounts.php:31 | `$XML->Account` visits exactly the children carrying that tag |
| Xml.NamedNone | src/Responses/SalesGetVendors.php:23-25 | children none of which carries the tag give nothing to visit |
| Xml.NamedAll | src/Responses/SalesGetVendors.php:31 | children that all carry the tag are all visited, in order |

## Left out

- HTTP transport, the request envelope, access-token and account setters, and the dispatch from action to processor. These belong to the `Reporter` class, whose source is not part of this model.
- gzip inflation, the XML parser and SimpleXML's `empty()` on an element. They are foreign code, so they appear as the parameters `inflate`, `parse` and `blank`. The test that an empty body yields `[]` from the XML decoders therefore rests on the parser rejecting it, and is not proved.
- PHP's conversion of numeric-string keys to integers. Total names and header names stay strings, so a total line such as `"2016\t5"` is kept under the string key `"2016"`, whereas PHP would use the integer key 2016 and could shift the next row index.
- The PHP 7 behaviour of `array_combine` on a width mismatch (a warning and the value `false` stored as a row). The model follows PHP 8, where a `ValueError` escapes `process()`; this is `Err(WidthMismatch(...))`. The design note that the decoders never raise does not hold for this input.
- A finance-style total line given to the sales decoder is an ordinary width mismatch, so the sales decoder fails on such text.
- Php.IntCast: covers whitespace, sign and a digit prefix only. Exponent and float forms (`"1e3"`) and the 64-bit saturation of very large numbers are not modelled; the values are unbounded integers.
- XML attributes, namespaces, mixed content and the exact whitespace handling of SimpleXML's text are not modelled. An element is a tag, a text and ordered children.
- FinanceGetVendors and any finance-accounts processor: only their tests exist, not their source, so they are not part of this model.
