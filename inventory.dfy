/** The inventory operations the server performs on a freshly read table: listing
    the SKU columns, searching bins by quantity, and applying a scan (subtract a
    quantity from one bin's SKU cell, floored at zero, then write the file back). */
module Inventory {
  import opened Wrappers
  import opened Sequences
  import opened Numbers
  import opened Table
  import opened Csv

  /** `Object.keys(row).filter(key => key !== 'Bin No.')`. */
  function SkuColumns(row: Row): (skus: seq<string>)
    ensures forall k :: k in skus <==> k in row.keys && k != BinKey
    ensures forall k | k in row.keys :: multiset(skus)[k] == if k != BinKey then multiset(row.keys)[k] else 0
    ensures IsSubsequence(skus, row.keys)
  {
    Filter(row.keys, k => k != BinKey)
  }

  /** The SKU names: the first row's keys other than `"Bin No."`, in key order,
      and none for a table without rows. */
  function ListSkus(rows: seq<Row>): (skus: seq<string>)
    ensures |rows| == 0 ==> skus == []
    ensures |rows| > 0 ==> forall k :: k in skus <==> k in rows[0].keys && k != BinKey
    ensures |rows| > 0 ==> forall k | k in rows[0].keys ::
              multiset(skus)[k] == if k != BinKey then multiset(rows[0].keys)[k] else 0
    ensures |rows| > 0 ==> IsSubsequence(skus, rows[0].keys)
  {
    if |rows| > 0 then SkuColumns(rows[0]) else []
  }

  /** `['Bin No.'].concat(skus)`: the columns written back, identity column first,
      then the row's other keys in key order. */
  function Headers(row: Row): (headers: seq<string>)
    ensures |headers| >= 1 && headers[0] == BinKey
    ensures BinKey !in headers[1..]
    ensures IsSubsequence(headers[1..], row.keys)
    ensures forall k :: k in headers <==> k == BinKey || k in row.keys
  {
    assert ([BinKey] + SkuColumns(row))[1..] == SkuColumns(row);
    [BinKey] + SkuColumns(row)
  }

  /** For a well-formed first row, every column is written exactly once. */
  lemma HeadersDistinct(row: Row)
    requires WellFormed(row)
    ensures Distinct(Headers(row))
  {
    var headers := Headers(row);
    SubsequenceDistinct(headers[1..], row.keys);
    forall i, j | 0 <= i < j < |headers| ensures headers[i] != headers[j] {
      assert headers[j] == headers[1..][j - 1];
      if i > 0 {
        assert headers[i] == headers[1..][i - 1];
      }
    }
  }

  /** `parseInt(row[sku] || 0) > parseInt(value)`: false when either side is `NaN`. */
  predicate Exceeds(row: Row, sku: string, value: string)
  {
    var quantity, threshold := CellValue(row, sku), ParseInt(value);
    quantity.Some? && threshold.Some? && quantity.value > threshold.value
  }

  /** The rows whose quantity of `sku` is greater than `value`, in table order. */
  function SearchBins(rows: seq<Row>, sku: string, value: string): (found: seq<Row>)
    ensures forall row :: row in found ==> row in rows && Exceeds(row, sku, value)
    ensures forall i :: 0 <= i < |rows| && Exceeds(rows[i], sku, value) ==> rows[i] in found
    ensures forall row | row in rows ::
              multiset(found)[row] == if Exceeds(row, sku, value) then multiset(rows)[row] else 0
    ensures IsSubsequence(found, rows)
  {
    Filter(rows, row => Exceeds(row, sku, value))
  }

  /** A threshold that does not parse (`NaN`) matches no row. */
  lemma SearchWithNaNThreshold(rows: seq<Row>, sku: string, value: string)
    requires ParseInt(value).None?
    ensures SearchBins(rows, sku, value) == []
  {
  }

  /** Raising the threshold can only drop rows: the stricter result is a subsequence
      of the looser one. */
  lemma {:induction false} SearchMonotone(rows: seq<Row>, sku: string, low: string, high: string)
    requires ParseInt(low).Some? && ParseInt(high).Some?
    requires ParseInt(low).value <= ParseInt(high).value
    ensures IsSubsequence(SearchBins(rows, sku, high), SearchBins(rows, sku, low))
    decreases |rows|
  {
    if rows != [] {
      var tail := rows[1..];
      SearchMonotone(tail, sku, low, high);
      assert SearchBins(rows, sku, high) ==
        (if Exceeds(rows[0], sku, high) then [rows[0]] else []) + SearchBins(tail, sku, high);
      assert SearchBins(rows, sku, low) ==
        (if Exceeds(rows[0], sku, low) then [rows[0]] else []) + SearchBins(tail, sku, low);
      if !Exceeds(rows[0], sku, high) && Exceeds(rows[0], sku, low) {
        SubsequenceOfTail(SearchBins(tail, sku, high), SearchBins(tail, sku, low), rows[0]);
      }
    }
  }

  /** How a scan request ended. `None` in `previous` or `updated` is `NaN`. */
  datatype ScanOutcome =
    | TableEmpty     // `data[0]` is undefined: the handler throws and answers 500
    | BinNotFound    // no row has the bin: 404, nothing is written
    | Scanned(index: nat, previous: Option<int>, updated: Option<int>)

  /** The outcome of a scan and the table afterwards: the first row whose bin is
      `binNo` gets `max(0, current - parseInt(value))` in column `sku`. */
  function ScanRows(rows: seq<Row>, binNo: string, sku: string, value: string): (res: (ScanOutcome, seq<Row>))
    ensures |rows| == 0 <==> res.0 == TableEmpty
    ensures res.0 == BinNotFound <==> |rows| > 0 && forall j :: 0 <= j < |rows| ==> !HasBin(rows[j], binNo)
    ensures !res.0.Scanned? ==> res.1 == rows
    ensures res.0.Scanned? ==>
              var i := res.0.index;
              && i < |rows| && HasBin(rows[i], binNo)
              && (forall j :: 0 <= j < i ==> !HasBin(rows[j], binNo))
              && res.0.previous == CellValue(rows[i], sku)
              && res.0.updated == ClampedSubtract(res.0.previous, ParseInt(value))
              && |res.1| == |rows|
              && (forall j :: 0 <= j < |rows| && j != i ==> res.1[j] == rows[j])
              && (forall k :: k != sku ==> Get(res.1[i], k) == Get(rows[i], k))
              && Get(res.1[i], sku) == Some(NumberToString(res.0.updated))
              && res.1[i].keys == (if sku in rows[i].keys then rows[i].keys else rows[i].keys + [sku])
              && CellValue(res.1[i], sku) == res.0.updated
  {
    if |rows| == 0 then (TableEmpty, rows)
    else match FindBin(rows, binNo)
      case None => (BinNotFound, rows)
      case Some(i) =>
        var previous := CellValue(rows[i], sku);
        var updated := ClampedSubtract(previous, ParseInt(value));
        SetThenCellValue(rows[i], sku, updated);
        (Scanned(i, previous, updated), rows[i := Set(rows[i], sku, NumberToString(updated))])
  }

  /** A scan never leaves a negative quantity: the new value is `NaN` or at least 0,
      and it is the old one minus the amount unless that would go below 0. */
  lemma ScanFloor(rows: seq<Row>, binNo: string, sku: string, value: string)
    requires ScanRows(rows, binNo, sku, value).0.Scanned?
    requires CellValue(rows[ScanRows(rows, binNo, sku, value).0.index], sku).Some?
    requires ParseInt(value).Some?
    ensures var out := ScanRows(rows, binNo, sku, value).0;
            var current, amount := out.previous.value, ParseInt(value).value;
            && out.updated.Some?
            && out.updated.value == (if current - amount > 0 then current - amount else 0)
  {
  }

  /** When `sku` is not one of the written columns (neither `"Bin No."` nor a key of
      the first row), the scan changes only a key that `writeCSV` never emits, so the
      file content is the same as before. */
  lemma ScanUnknownSkuWritesSameText(rows: seq<Row>, binNo: string, sku: string, value: string)
    requires |rows| > 0
    requires sku != BinKey && sku !in rows[0].keys
    ensures var headers := Headers(rows[0]);
            CsvText(headers, ScanRows(rows, binNo, sku, value).1) == CsvText(headers, rows)
  {
    var headers := Headers(rows[0]);
    var res := ScanRows(rows, binNo, sku, value);
    if res.0.Scanned? {
      var i := res.0.index;
      var after := res.1;
      forall j | 0 <= j < |headers|
        ensures CellText(after[i], headers[j]) == CellText(rows[i], headers[j])
      {
        assert headers[j] != sku;
      }
      assert RowValues(headers, after[i]) == RowValues(headers, rows[i]);
      assert RowLines(headers, after) == RowLines(headers, rows);
    }
  }

  /** Scanning keeps every row well formed. */
  lemma ScanKeepsRowsWellFormed(rows: seq<Row>, binNo: string, sku: string, value: string)
    requires forall i :: 0 <= i < |rows| ==> WellFormed(rows[i])
    ensures var after := ScanRows(rows, binNo, sku, value).1;
            forall i :: 0 <= i < |after| ==> WellFormed(after[i])
  {
  }

  /** The table of one request. The server reads a fresh snapshot for each request and
      keeps nothing between requests, so an object of this class lives for one request. */
  class InventoryTable {
    var rows: array<Row>

    constructor (snapshot: seq<Row>)
      ensures fresh(rows) && rows[..] == snapshot
    {
      rows := new Row[|snapshot|](i requires 0 <= i < |snapshot| => snapshot[i]);
    }

    /** `writeCSV(data, headers)`: builds the file content row by row. */
    method WriteCsv(headers: seq<string>) returns (content: string)
      ensures content == CsvText(headers, rows[..])
    {
      content := HeaderLine(headers) + "\n";
      assert content == Text.Lines([HeaderLine(headers)] + RowLines(headers, rows[..0]));
      var i := 0;
      while i < rows.Length
        invariant 0 <= i <= rows.Length
        invariant content == Text.Lines([HeaderLine(headers)] + RowLines(headers, rows[..i]))
      {
        var line := RowLine(headers, rows[i]);
        assert [HeaderLine(headers)] + RowLines(headers, rows[..i + 1])
            == ([HeaderLine(headers)] + RowLines(headers, rows[..i])) + [line];
        Text.LinesSnoc([HeaderLine(headers)] + RowLines(headers, rows[..i]), line);
        content := content + line + "\n";
        i := i + 1;
      }
      assert rows[..i] == rows[..];
    }

    /** The `process-scan` handler: read the headers from the first row, find the
        first row with the bin, overwrite its `sku` cell with the clamped difference,
        then write the table. `persisted` is the content written, and is absent when
        the handler answers before writing. */
    method ApplyScan(binNo: string, sku: string, value: string) returns (outcome: ScanOutcome, persisted: Option<string>)
      modifies rows
      ensures (outcome, rows[..]) == ScanRows(old(rows[..]), binNo, sku, value)
      ensures persisted.Some? <==> outcome.Scanned?
      ensures outcome.Scanned? ==> persisted == Some(CsvText(Headers(old(rows[0])), rows[..]))
    {
      if rows.Length == 0 {
        return TableEmpty, None;
      }
      var headers := Headers(rows[0]);
      var found := FindBin(rows[..], binNo);
      if found.None? {
        return BinNotFound, None;
      }
      var i := found.value;
      var previous := CellValue(rows[i], sku);
      var updated := ClampedSubtract(previous, ParseInt(value));
      rows[i] := Set(rows[i], sku, NumberToString(updated));
      var content := WriteCsv(headers);
      outcome, persisted := Scanned(i, previous, updated), Some(content);
    }
  }

}
