/** Worked examples on a one-bin table: bin `A1` holds 10 of `WIDGET`. */
module Scenarios {
  import opened Wrappers
  import opened Numbers
  import opened Table
  import opened Inventory

  function WidgetRow(): Row
  {
    Row([BinKey, "WIDGET"], map[BinKey := "A1", "WIDGET" := "10"])
  }

  /** Searching for more than 5 finds the bin; searching for more than 10 does not. */
  lemma SearchScenario()
    ensures SearchBins([WidgetRow()], "WIDGET", "5") == [WidgetRow()]
    ensures SearchBins([WidgetRow()], "WIDGET", "10") == []
  {
    assert ParseInt("10") == Some(10) by {
      assert "10"[..1] == "1";
      assert AllDigits("10");
      assert DigitsValue("10") == 10;
    }
    assert ParseInt("5") == Some(5) by {
      assert "5"[..0] == [];
      assert AllDigits("5");
    }
    assert CellValue(WidgetRow(), "WIDGET") == Some(10);
    assert Exceeds(WidgetRow(), "WIDGET", "5");
    assert !Exceeds(WidgetRow(), "WIDGET", "10");
  }

  /** Taking 15 from a cell of 10 leaves 0 in that cell, and the bin keeps its id. */
  lemma OverdrawScenario()
    ensures var (outcome, after) := ScanRows([WidgetRow()], "A1", "WIDGET", "15");
            && outcome == Scanned(0, Some(10), Some(0))
            && Get(after[0], "WIDGET") == Some("0")
            && Get(after[0], BinKey) == Some("A1")
  {
    assert ParseInt("10") == Some(10) by {
      assert "10"[..1] == "1";
      assert AllDigits("10");
      assert DigitsValue("10") == 10;
    }
    assert ParseInt("15") == Some(15) by {
      assert "15"[..1] == "1";
      assert AllDigits("15");
      assert DigitsValue("15") == 15;
    }
    assert HasBin(WidgetRow(), "A1");
    assert NatToString(0) == "0";
  }

  /** Scanning an unknown bin answers not found and leaves the table as it was. */
  lemma UnknownBinScenario()
    ensures ScanRows([WidgetRow()], "Z9", "WIDGET", "1") == (BinNotFound, [WidgetRow()])
  {
    assert !HasBin(WidgetRow(), "Z9");
  }

  /** The amount is not checked: taking `"-5"` from 10 raises the cell to 15. */
  lemma NegativeAmountScenario()
    ensures var (outcome, after) := ScanRows([WidgetRow()], "A1", "WIDGET", "-5");
            && outcome == Scanned(0, Some(10), Some(15))
            && Get(after[0], "WIDGET") == Some("15")
  {
    assert ParseInt("10") == Some(10) by {
      assert "10"[..1] == "1";
      assert AllDigits("10");
      assert DigitsValue("10") == 10;
    }
    assert ParseInt("-5") == Some(-5) by {
      assert "5"[..0] == [];
      ParseIntNumeral("5");
      assert "-" + "5" == "-5";
    }
    assert HasBin(WidgetRow(), "A1");
    assert NatToString(15) == "15" by {
      assert NatToString(1) == "1";
    }
  }

}
