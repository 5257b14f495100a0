/** The inventory table as the server holds it after parsing the CSV file: a sequence
    of rows, each a JavaScript object from column name to cell text. The column
    `"Bin No."` identifies the bin; every other column is a SKU. */
module Table {
  import opened Wrappers
  import opened Numbers
  import opened Sequences

  /** The identity column. */
  const BinKey: string := "Bin No."

  /** One record. `keys` lists the object's own keys in `Object.keys` order;
      `cells` holds the value of each key. */
  datatype Row = Row(keys: seq<string>, cells: map<string, string>)

  /** The keys are distinct and are exactly the keys that hold a value. */
  predicate WellFormed(row: Row)
  {
    && Distinct(row.keys)
    && (forall k :: k in row.cells ==> k in row.keys)
    && (forall k :: k in row.keys ==> k in row.cells)
  }

  /** `row[key]` for the row's own keys; `None` is `undefined`. Names a JavaScript
      object inherits from `Object.prototype` (`toString`, `constructor`, ...) are
      not modelled and read as missing. */
  function Get(row: Row, key: string): Option<string>
  {
    if key in row.cells then Some(row.cells[key]) else None
  }

  /** `row[key] = text`: overwrites the value of an existing key, or adds the key
      after all existing ones. */
  function Set(row: Row, key: string, text: string): (r: Row)
    ensures Get(r, key) == Some(text)
    ensures forall k :: k != key ==> Get(r, k) == Get(row, k)
    ensures key in row.keys ==> r.keys == row.keys
    ensures key !in row.keys ==> r.keys == row.keys + [key]
    ensures WellFormed(row) ==> WellFormed(r)
  {
    Row(if key in row.keys then row.keys else row.keys + [key], row.cells[key := text])
  }

  /** `row[key] || '0'`: the text written for a cell, where a missing or empty cell
      becomes `"0"`. */
  function CellText(row: Row, key: string): (text: string)
    ensures text != ""
    ensures Get(row, key).Some? && Get(row, key).value != "" ==> text == Get(row, key).value
    ensures Get(row, key).None? || Get(row, key).value == "" ==> text == "0"
  {
    match Get(row, key)
    case Some(t) => if t != "" then t else "0"
    case None => "0"
  }

  /** `parseInt(row[key] || 0)`: a missing or empty cell counts as 0. The value the
      search reads is the parse of the text `writeCSV` writes for the same cell. */
  function CellValue(row: Row, key: string): (v: Option<int>)
    ensures v == ParseInt(CellText(row, key))
    ensures Get(row, key).None? || Get(row, key).value == "" ==> v == Some(0)
    ensures Get(row, key).Some? && Get(row, key).value != "" ==> v == ParseInt(Get(row, key).value)
  {
    assert AllDigits("0") && DigitsValue("0") == 0 by {
      assert "0"[..0] == [];
    }
    match Get(row, key)
    case Some(t) => if t != "" then ParseInt(t) else Some(0)
    case None => Some(0)
  }

  /** `row['Bin No.'] === binNo`. */
  predicate HasBin(row: Row, binNo: string)
  {
    Get(row, BinKey) == Some(binNo)
  }

  /** `rows.findIndex(row => row['Bin No.'] === binNo)`, with `None` for -1. */
  function FindBin(rows: seq<Row>, binNo: string): (r: Option<nat>)
    ensures r.Some? ==> r.value < |rows| && HasBin(rows[r.value], binNo)
    ensures r.Some? ==> forall j :: 0 <= j < r.value ==> !HasBin(rows[j], binNo)
    ensures r.None? <==> forall j :: 0 <= j < |rows| ==> !HasBin(rows[j], binNo)
    decreases |rows|
  {
    if rows == [] then None
    else if HasBin(rows[0], binNo) then Some(0)
    else match FindBin(rows[1..], binNo)
      case None => None
      case Some(i) => Some(i + 1)
  }

  /** Writing a number into a cell and parsing the cell again gives that number back. */
  lemma SetThenCellValue(row: Row, key: string, x: Option<int>)
    requires x.Some? ==> x.value >= 0
    ensures CellValue(Set(row, key, NumberToString(x)), key) == x
  {
    ParseNumberToString(x);
    assert NumberToString(x) != "";
  }

  /** The text stored by `row[key] = text` is the text `writeCSV` writes for that
      cell when it is not empty, and every other written cell keeps its text. */
  lemma SetThenCellText(row: Row, key: string, text: string)
    requires text != ""
    ensures CellText(Set(row, key, text), key) == text
    ensures forall k :: k != key ==> CellText(Set(row, key, text), k) == CellText(row, k)
  {
  }

}
