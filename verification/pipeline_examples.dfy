/** The `process_tsv` case of tests/test_postprocess.py that thresholds a
    row of two cells, derived from the model. */
module PipelineExamples {
  import opened Outcomes
  import opened Strings
  import opened Powers
  import opened CellSyntax
  import opened Values
  import opened ValueExamples
  import opened Pipeline

  /** Thresholding at 5n with the replacement text `REPLACED`, everything
      else left at its default. */
  const ThresholdSettings := Settings(true, "5n", "REPLACED", false, "", false, "engineering", false, "all")

  lemma KeepsText(t: string, v: Parsed, render: Render)
    requires v.Numeric?
    ensures Finish(t, v, ThresholdSettings, render) == t
  {
    assert ThresholdSettings.copyStrategy == "all" && !ThresholdSettings.splitValueUnit;
    assert |"all"| != |"value_only"| && |"all"| != |"unit_only"|;
  }

  /** A replacement that does not start like a number stays text. */
  lemma ParseReplaced(c: string)
    requires c == "REPLACED"
    ensures ParseCell(c) == Unparsed(c)
  {
    StripOfStripped(c);
    assert TrimLeft(c) == c;
    assert !IsNumberChar(c[0]);
    assert NumberGroup(c) == "";
  }

  lemma NanoBases(v: Parsed)
    requires v.Numeric? && v.prefix == "n"
    ensures v.number == 1.0 ==> Base(v) == 0.000000001
    ensures v.number == 5.0 ==> Base(v) == 0.000000005
    ensures v.number == 10.0 ==> Base(v) == 0.00000001
  {
    assert PowerOrZero("n") == -9;
    assert Scale(1.0, -9) == 0.000000001;
    assert Scale(5.0, -9) == 0.000000005;
    assert Scale(10.0, -9) == 0.00000001;
  }

  lemma ThresholdParsed()
    ensures ParseCell(ThresholdSettings.thresholdValue) == Numeric("5n", 5.0, "n", "")
  {
    assert "5n" == NatToString(5) + "n";
    ParseWhole("5n", 5, "n");
  }

  /** 1n lies below 5n, so the cell becomes the replacement text. */
  lemma OneNanoReplaced(cell: string, render: Render)
    requires cell == "1n"
    ensures ProcessCell(cell, ThresholdSettings, render) == Ok("REPLACED")
  {
    assert cell == NatToString(1) + "n";
    ParseWhole(cell, 1, "n");
    NanoBases(ParseCell(cell));
    ThresholdParsed();
    NanoBases(ParseCell("5n"));
    ParseReplaced("REPLACED");
  }

  /** 10n is not below 5n, so the cell is the number written again. */
  lemma TenNanoKept(cell: string, render: Render)
    requires cell == "10n" && render.eng(10.0) == "10"
    ensures ProcessCell(cell, ThresholdSettings, render) == Ok("10n")
  {
    TenNanoFacts(cell, render);
    KeptCell(cell, ParseCell(cell), render);
  }

  /** A number the threshold keeps is written again as it was parsed. */
  lemma KeptCell(cell: string, v: Parsed, render: Render)
    requires v.Numeric? && v == ParseCell(cell) && !Below(v, ThresholdSettings.thresholdValue)
    ensures ProcessCell(cell, ThresholdSettings, render) == Ok(Format(v, render))
  {
    assert Transform(cell, ThresholdSettings) == v;
    var t := Format(v, render);
    assert Notation(v, ThresholdSettings, render) == Ok((t, v));
    KeepsText(t, v, render);
  }

  lemma TenNanoFacts(cell: string, render: Render)
    requires cell == "10n" && render.eng(10.0) == "10"
    ensures var v := ParseCell(cell);
      v.Numeric? && !Below(v, ThresholdSettings.thresholdValue) && Format(v, render) == "10n"
  {
    assert cell == NatToString(10) + "n";
    ParseWhole(cell, 10, "n");
    var v := ParseCell(cell);
    NanoBases(v);
    ThresholdParsed();
    NanoBases(ParseCell("5n"));
    Suffixed(render.eng(10.0));
  }

  lemma Suffixed(a: string)
    requires a == "10"
    ensures a + "n" + "" == "10n"
  {
  }

  lemma ThresholdCells(text: string)
    requires text == "1n\t10n"
    ensures Cells(text) == [["1n", "10n"]]
  {
    StripOfStripped(text);
    SplitNoSeparator(text, '\n');
    assert Split(Strip(text), '\n') == [text];
    assert text == "1n" + ['\t'] + "10n";
    SplitAtSeparator("1n", "10n", '\t');
    SplitNoSeparator("10n", '\t');
    assert Split(text, '\t') == ["1n", "10n"];
  }

  lemma RowProcessed(row: seq<string>, render: Render)
    requires row == ["1n", "10n"] && render.eng(10.0) == "10"
    ensures ProcessRow(row, ThresholdSettings, render) == Ok(["REPLACED", "10n"])
  {
    OneNanoReplaced(row[0], render);
    TenNanoKept(row[1], render);
    PairProcessed(row, ThresholdSettings, render, "REPLACED", "10n");
  }

  /** A two-cell row whose cells both come out gives the pair of them. */
  lemma PairProcessed(row: seq<string>, s: Settings, render: Render, x: string, y: string)
    requires |row| == 2
    requires ProcessCell(row[0], s, render) == Ok(x) && ProcessCell(row[1], s, render) == Ok(y)
    ensures ProcessRow(row, s, render) == Ok([x, y])
  {
    PairOk(row, s, render);
    ProcessRowCells(row, s, render);
    var r := ProcessRow(row, s, render);
    assert r.value == [x, y];
  }

  lemma PairOk(row: seq<string>, s: Settings, render: Render)
    requires |row| == 2
    requires ProcessCell(row[0], s, render).Ok? && ProcessCell(row[1], s, render).Ok?
    ensures ProcessRow(row, s, render).Ok?
  {
    ProcessRowCells(row, s, render);
    forall i | 0 <= i < |row| ensures ProcessCell(row[i], s, render).Ok? {
      assert i == 0 || i == 1;
    }
  }

  lemma JoinedRow(rows: seq<seq<string>>)
    requires rows == [["REPLACED", "10n"]]
    ensures JoinRows(rows) == "REPLACED\t10n"
  {
    assert Join(rows[0], '\t') == "REPLACED" + ['\t'] + "10n";
    assert JoinRows(rows) == Join(rows[0], '\t');
  }

  /** "1n\t10n" thresholded at 5n with the replacement `REPLACED` gives
      "REPLACED\t10n", when the decimal rendering writes ten as "10". */
  lemma ThresholdTsv(text: string, render: Render)
    requires text == "1n\t10n" && render.eng(10.0) == "10"
    ensures ProcessTsv(text, ThresholdSettings, render) == Ok("REPLACED\t10n")
  {
    ThresholdCells(text);
    var row := ["1n", "10n"];
    RowProcessed(row, render);
    var m := MapAll(Cells(text), r => ProcessRow(r, ThresholdSettings, render));
    assert m.Ok? && |m.value| == 1 && m.value[0] == ["REPLACED", "10n"];
    assert m.value == [["REPLACED", "10n"]];
    JoinedRow(m.value);
  }
}
