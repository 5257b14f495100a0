# Inventory bin ledger: a Dafny model of the ITC server's table logic

The ITC server keeps per-bin stock quantities in a CSV file. Each row is a bin,
identified by the column `"Bin No."`. Every other column is a SKU, and each cell holds
a quantity. Its HTTP handlers in `server.js` do four things with that table:

- list the SKU columns (`GET /api/skus`);
- search for bins whose quantity of a SKU exceeds a threshold (`POST /api/search-bins`);
- build the URL a QR code carries for a pending pick (`POST /api/generate-qr`);
- apply a scan (`POST /api/process-scan`): subtract an amount from one bin's SKU
  cell, floored at zero, then write the whole table back to the file (`writeCSV`).

Every request reads a fresh snapshot of the table and keeps no state between
requests. This project models that table logic and proves its properties:

| file | module | models |
|---|---|---|
| `wrappers.dfy` | `Wrappers` | `Option`; `None` also stands for JavaScript's `NaN` |
| `sequences.dfy` | `Sequences` | `Array.prototype.filter` as an order-preserving filter |
| `text.dfy` | `Text` | `split` / `join` on one separator, newline-terminated lines |
| `numbers.dfy` | `Numbers` | `parseInt`, `Math.max(0, a - b)`, `toString` |
| `table.dfy` | `Table` | rows as JavaScript objects (ordered keys plus values), `row[k]`, `row[k] = v`, `findIndex` |
| `csv.dfy` | `Csv` | the text `writeCSV` builds |
| `inventory.dfy` | `Inventory` | the SKU list, the search, the scan (as a specification function and as the class `InventoryTable`, whose `ApplyScan` updates a row of its array in place and whose `WriteCsv` builds the file in a loop) |
| `scan_url.dfy` | `ScanUrl` | `encodeURIComponent` (UTF-8 and `%XY`), `decodeURIComponent`, the scan URL and reading its query back |
| `scenarios.dfy` | `Scenarios` | three worked examples on a one-bin table |

Modelling choices:

- A row is `Row(keys, cells)`. `keys` is the object's key order as `Object.keys` returns it, which `ListSkus` and the written column order depend on. `Object.keys` lists integer-like keys such as `"10042"` first, in ascending order, so when a scan rewrites the file (line 115) such SKU columns come first. The model takes the parsed rows with their keys already in that order.
- A cell that does not parse is `NaN`, modelled as `None`. The code then computes `Math.max(0, NaN)`, which is `NaN`, and writes the text `"NaN"` into the cell. The model does the same.
- The code writes a scan into the row in place with `data[binIndex][sku] = ...`. In the model the rows are values in an `array<Row>` field, and `ApplyScan` assigns one element of that array.
- The file write is modelled as the text that would be written. `ApplyScan` returns it as `persisted`.

### Behaviour of the code worth knowing (the model keeps it)

- The code does not check that the scan amount is a positive integer. A negative amount therefore raises the quantity, though the result is still at least 0. An amount that does not parse writes `"NaN"` into the cell.
- The code takes no lock around reading, updating and writing the file (see "Left out").
- With zero data rows, `process-scan` throws at `data[0]` (line 115) before it searches for the bin. It answers with a server error, not "Bin not found". The model's outcome for this case is `TableEmpty`, distinct from `BinNotFound`.
- Bin ids need not be unique. The first matching row is updated.
- A scan with `sku == "Bin No."` overwrites the bin id of the row with the clamped number, usually `"NaN"`. The model keeps this behaviour.
- `writeCSV` quotes nothing. The line and field counts in `Csv.CsvShape` hold only for headers and cells without commas and newlines.

## Model

| member | source | states |
|---|---|---|
| `Sequences.Filter` | server.js:69-72 | the result holds exactly the elements that pass the test, with their multiplicity, in their original order (a subsequence), and is no longer than the input |
| `Numbers.ParseInt` | server.js:70 | the empty string parses to NaN; a successful parse ends in a digit, and a negative result comes from a leading `-` |
| `Numbers.NatToString` | server.js:125 | a non-negative integer is written as a non-empty string of decimal digits with no leading zero |
| `Numbers.ClampedSubtract` | server.js:124 | `Math.max(0, current - amount)`: NaN exactly when an operand is NaN; otherwise at least 0, at least `current - amount`, and equal to one of the two |
| `Numbers.ParseIntNumeral` | server.js:70-71 | a numeral `d`, `"+" + d` and `"-" + d` parse to the value of `d`, that value, and its negation, so an amount `"-5"` reads as -5 |
| `Numbers.LeadingZero` | server.js:70 | a leading `0` leaves a numeral's value unchanged, so a cell `"007"` reads as 7 |
| `Numbers.DigitsValueOfNatToString` | server.js:125 | the value of the decimal numeral written for `n` is `n` |
| `Numbers.ParseNumberToString` | server.js:123-125 | `parseInt(x.toString())` gives back every value a scan writes, NaN included (for values below 10^21, see "Left out") |
| `Table.Set` | server.js:125 | `row[key] = text` makes `row[key]` read `text` and leaves every other key's value as it was; the key order is unchanged for an existing key, and a new key is appended; a well-formed row stays well formed |
| `Table.CellValue` | server.js:70 | the quantity the search reads for a cell is `parseInt` of exactly the text `writeCSV` writes for that cell (line 52), so a missing or empty cell reads as 0 |
| `Table.FindBin` | server.js:118 | `findIndex` returns the lowest index whose `"Bin No."` equals the bin, and -1 (None) exactly when no row has it |
| `Table.SetThenCellValue` | server.js:123-125 | after the scan writes `newValue.toString()`, parsing the cell again gives `newValue` |
| `Table.SetThenCellText` | server.js:125 | a non-empty text stored by `row[key] = text` is the text `writeCSV` writes for that cell (line 52), and every other cell's written text is unchanged |
| `Csv.CsvShape` | server.js:50-54 | for fields without commas and newlines, the content splits into one newline-terminated line per row plus the header line; the first line splits into the headers, and line `i + 1` splits into exactly as many fields as there are headers, which are row `i`'s cells in header order |
| `Csv.CsvStartsWithFirstHeader` | server.js:50 | the written content begins with the first header, which is `"Bin No."` for the headers of line 115 |
| `Inventory.SkuColumns` | server.js:85 | the first row's keys without `"Bin No."`, in key order: a key is listed iff it is a key of the row other than `"Bin No."`, and as often as it occurs among the keys |
| `Inventory.ListSkus` | server.js:83-89 | an empty list for a table with no rows; otherwise exactly the first row's keys other than `"Bin No."`, each as often as among the keys, as a subsequence of its key order |
| `Inventory.Headers` | server.js:115 | the written columns start with `"Bin No."`, hold it only once, are `"Bin No."` plus the first row's keys, and after `"Bin No."` follow the first row's key order |
| `Inventory.HeadersDistinct` | server.js:115 | for a first row with distinct keys, every column is written exactly once |
| `Inventory.SearchBins` | server.js:69-72 | the rows whose parsed cell (missing or empty read as 0) is greater than the parsed threshold, each with its multiplicity, in table order; no other row; NaN on either side excludes the row |
| `Inventory.SearchWithNaNThreshold` | server.js:71 | a threshold that does not parse matches no row |
| `Inventory.SearchMonotone` | server.js:69-72 | raising the threshold only drops rows: the result for the higher threshold is a subsequence of the result for the lower one |
| `Inventory.ScanRows` | server.js:112-125 | with no rows, the outcome is TableEmpty and the table is unchanged; with no row for the bin, it is BinNotFound and the table is unchanged. Otherwise the first row with the bin is updated: its `sku` cell becomes the text `newValue.toString()` of `newValue = max(0, previous - amount)`, where a missing cell is 0, and parses back to `newValue`. The row's key order is kept, or `sku` is appended when it was not a key. Row count, every other row, and every other cell of that row are unchanged |
| `Inventory.ScanFloor` | server.js:123-124 | for numeric cell and amount, the new value is `current - amount` when that is positive and 0 otherwise, so never negative, even for a negative amount |
| `Inventory.ScanUnknownSkuWritesSameText` | server.js:115-127 | when `sku` is not one of the headers taken at line 115 (neither `"Bin No."` nor a key of the first row), the file content written is the same as for the table before the scan |
| `Inventory.ScanKeepsRowsWellFormed` | server.js:125 | a scan keeps every row's keys distinct and in step with its values |
| `Inventory.InventoryTable.constructor` | server.js:112 | the table object holds the snapshot read for the request, in a fresh array |
| `Inventory.InventoryTable.WriteCsv` | server.js:47-61 | the content built line by line is the header line followed by one line per row, each newline-terminated (`CsvText`) |
| `Inventory.InventoryTable.ApplyScan` | server.js:109-140 | the outcome and the new rows are those of `ScanRows` on the old rows. Content is written exactly when a row was updated, and it is the new rows under the headers taken from the old first row |
| `ScanUrl.Utf8RoundTrip` | server.js:100 | the UTF-8 bytes `encodeURIComponent` escapes decode back to the character, and the lead byte gives the sequence length |
| `ScanUrl.EncodeUriComponent` | server.js:100 | the encoded text holds only unreserved characters and `%`, and is at least as long as the input |
| `ScanUrl.DecodeEncode` | server.js:100 | `decodeURIComponent(encodeURIComponent(s)) == s` for every string of Unicode scalar values (no lone surrogates, see "Left out") |
| `ScanUrl.EncodedHasNoDelimiters` | server.js:100 | an encoded `binNo` or `sku` holds no `&`, `=` or `?` |
| `ScanUrl.QueryOfScanUrl` | server.js:100 | the part of the scan URL after `?` is the query the server built, when neither the host nor `value` holds a `?` |
| `ScanUrl.ParseScanQuery` | server.js:100 | when `value` holds only unreserved characters (so no `&`, `=`, `?` or `%`), the query reads back as exactly three parameters, `binNo`, `sku` and `value`, with their original values |
| `ScanUrl.ScanUrlRoundTrip` | server.js:100 | when the host holds no `?` and `value` holds only unreserved characters, reading the whole scan URL back gives exactly `binNo`, `sku` and `value`, whatever `binNo` and `sku` contain |
| `ScanUrl.UnencodedValueSplits` | server.js:100 | `value` is not encoded: a value `v1&v2` reads back as `value = v1` plus a fourth parameter `v2` |
| `Scenarios.SearchScenario` | server.js:69-72 | with A1 holding 10 WIDGET, a search above 5 finds A1 and a search above 10 finds nothing |
| `Scenarios.OverdrawScenario` | server.js:118-125 | taking 15 from 10 records previous 10 and new value 0, writes `"0"`, and keeps the bin id |
| `Scenarios.NegativeAmountScenario` | server.js:123-125 | taking `"-5"` from 10 records previous 10 and new value 15 and writes `"15"`: the amount is not checked |
| `Scenarios.UnknownBinScenario` | server.js:118-121 | scanning bin Z9 answers not found and leaves the table unchanged |

## Left out

- HTTP wiring is not modelled: route registration, CORS, JSON bodies, static files, status codes and `app.listen` (server.js:9-10, 28-30, 64-157). These are framework plumbing. The outcomes `TableEmpty` and `BinNotFound` stand for the 500 and 404 answers.
- `getLocalIP` (server.js:13-24) queries the operating system's network interfaces. The host is a string parameter of `ScanUrl.ScanUrl`.
- `readCSV` (server.js:35-44) uses file streams and the `csv-parser` library, which is not part of this model. Parsed rows are an input: the `InventoryTable` constructor's snapshot, and the `rows` argument of the functions.
- `fs.writeFileSync` (server.js:55) is file I/O. The model stops at the content string.
- `QRCode.toDataURL` (server.js:101) is an external image renderer. The model stops at the URL string.
- `GET /api/inventory` (server.js:143-150) returns the parsed rows unchanged, so there is nothing to model beyond the snapshot.
- Concurrency is not modelled. Lines 112-127 are an unsynchronised read-modify-write across `await`, so two concurrent scans can lose an update. The model describes a single request and claims no atomicity.
- The page that opens the scan URL, `public/scan.html`, is not part of this model. `ScanUrl.ParseQuery` reads a query by splitting it on `&` and then on the first `=`, and decodes each side with `decodeURIComponent`. Form decoding of `+` as a space is not modelled; `encodeURIComponent` never emits `+`.
- Numbers.ParseInt: accepts only an optional sign followed by decimal digits, and gives NaN for everything else. JavaScript's `parseInt` also skips leading whitespace and parses a prefix, so `"10abc"` gives 10. It also reads a `0x` prefix as hexadecimal.
- Numbers.NatToString: writes every value in decimal digits. JavaScript's `toString` writes exponent notation from 10^21 up (`"1e+21"`), which `parseInt` reads back as 1, so `Numbers.ParseNumberToString` holds for JavaScript only below 10^21.
- ScanUrl.EncodeUriComponent: Dafny strings hold Unicode scalar values, so a lone UTF-16 surrogate cannot be expressed. JavaScript's `encodeURIComponent` throws `URIError` on one (for example a `binNo` of `"\ud800"`), and the handler then answers 500 (line 104). That error path is not modelled.
- Numbers.ClampedSubtract: uses unbounded integers. JavaScript numbers are doubles and lose precision above 2^53.
- Table.CellValue: models only a row's own keys; a key it does not hold reads as missing, so as 0. In JavaScript a `sku` naming a property every object inherits from `Object.prototype` (`toString`, `constructor`, `valueOf`, `__proto__`) reads that property instead: for a function, `parseInt` gives NaN, so the search (line 70) keeps no row and a scan (lines 123-125) records previous NaN and writes `"NaN"`, where the model reads 0.
- Table.Set: appends a new key at the end of the key order. JavaScript enumerates a new integer-like key such as `"123"` among the other integer-like keys, before the rest. This only changes the key order of a row after a scan, which nothing reads before the request ends: the written columns were taken at line 115, before the update.
- Request fields `binNo`, `sku` and `value` are strings in the model. A non-string `binNo` never equals a cell under `===`, and a numeric `value` is read through its decimal text.
- The response field `subtracted` echoes the request's `value`. The caller already has it, so `ApplyScan` does not return it.
