/** The text `writeCSV` produces: a header line, then one line per row with the
    cells in header order, every line comma-joined and newline-terminated. No field
    is quoted. */
module Csv {
  import opened Text
  import opened Table

  /** `headers.join(',')`. */
  function HeaderLine(headers: seq<string>): string
  {
    Join(headers, ',')
  }

  /** `headers.map(header => row[header] || '0')`. */
  function RowValues(headers: seq<string>, row: Row): (values: seq<string>)
    ensures |values| == |headers|
    ensures forall j :: 0 <= j < |headers| ==> values[j] == CellText(row, headers[j])
  {
    seq(|headers|, j requires 0 <= j < |headers| => CellText(row, headers[j]))
  }

  /** `values.join(',')` for one row. */
  function RowLine(headers: seq<string>, row: Row): string
  {
    Join(RowValues(headers, row), ',')
  }

  function RowLines(headers: seq<string>, rows: seq<Row>): (lines: seq<string>)
    ensures |lines| == |rows|
    ensures forall i :: 0 <= i < |rows| ==> lines[i] == RowLine(headers, rows[i])
  {
    seq(|rows|, i requires 0 <= i < |rows| => RowLine(headers, rows[i]))
  }

  /** The whole file content written for `rows` under `headers`. */
  function CsvText(headers: seq<string>, rows: seq<Row>): string
  {
    Lines([HeaderLine(headers)] + RowLines(headers, rows))
  }

  /** A field that can be written without quoting. */
  predicate Clean(s: string)
  {
    ',' !in s && '\n' !in s
  }

  /** When no header and no written cell holds a comma or a newline, the text has
      `|rows| + 1` newline-terminated lines: the headers, then for each row, in
      order, exactly `|headers|` fields, the cell under each header or `"0"`. */
  lemma CsvShape(headers: seq<string>, rows: seq<Row>)
    requires |headers| >= 1
    requires forall j :: 0 <= j < |headers| ==> Clean(headers[j])
    requires forall i, j :: 0 <= i < |rows| && 0 <= j < |headers| ==> Clean(CellText(rows[i], headers[j]))
    ensures |Split(CsvText(headers, rows), '\n')| == |rows| + 2
    ensures Split(CsvText(headers, rows), '\n')[|rows| + 1] == ""
    ensures Split(Split(CsvText(headers, rows), '\n')[0], ',') == headers
    ensures forall i :: 0 <= i < |rows| ==>
              Split(Split(CsvText(headers, rows), '\n')[i + 1], ',') == RowValues(headers, rows[i])
  {
    var ls := [HeaderLine(headers)] + RowLines(headers, rows);
    SplitJoin(headers, ',');
    forall i | 0 <= i < |rows|
      ensures Split(RowLine(headers, rows[i]), ',') == RowValues(headers, rows[i])
      ensures '\n' !in RowLine(headers, rows[i])
    {
      var values := RowValues(headers, rows[i]);
      SplitJoin(values, ',');
      NoNewlineInJoin(values);
    }
    NoNewlineInJoin(headers);
    SplitLines(ls);
  }

  /** Joining with commas adds no newline. */
  lemma {:induction false} NoNewlineInJoin(parts: seq<string>)
    requires forall j :: 0 <= j < |parts| ==> Clean(parts[j])
    ensures '\n' !in Join(parts, ',')
    decreases |parts|
  {
    if |parts| > 1 {
      NoNewlineInJoin(parts[1..]);
    }
  }

  /** The file starts with the first header. */
  lemma CsvStartsWithFirstHeader(headers: seq<string>, rows: seq<Row>)
    requires |headers| >= 1
    ensures |headers[0]| <= |CsvText(headers, rows)|
    ensures CsvText(headers, rows)[..|headers[0]|] == headers[0]
  {
    var ls := [HeaderLine(headers)] + RowLines(headers, rows);
    JoinStartsWithFirst(headers, ',');
    LinesStartWithFirst(ls);
  }

}
