/** `PostprocessSettings` and `process_tsv` of postprocess.py: every cell of a
    tab-separated block goes through parsing, thresholding, prefix conversion,
    notation, splitting and the copy strategy, in that order. */
module Pipeline {
  import opened Outcomes
  import opened Strings
  import opened CellSyntax
  import opened Values

  /** `PostprocessSettings`; the style and strategy stay strings, as in the
      configuration file, and unknown ones act like the defaults. */
  datatype Settings = Settings(
    applyThreshold: bool,
    thresholdValue: string,
    thresholdReplaceWith: string,
    applyUnitConversion: bool,
    targetUnitPrefix: string,
    applyNotationConversion: bool,
    notationStyle: string,
    splitValueUnit: bool,
    copyStrategy: string)

  /** The dataclass defaults. */
  const Defaults := Settings(false, "0", "0", false, "", false, "engineering", false, "all")

  /** Steps 1 to 3: parse, threshold, then convert anything but the marker. */
  function Transform(cell: string, s: Settings): (v: Parsed)
    ensures TableParts(v)
    ensures v.original == Strip(cell) || (s.applyThreshold && v.original == Strip(s.thresholdReplaceWith))
    ensures !ParseCell(cell).Numeric? ==> v == ParseCell(cell)
  {
    var p0 := ParseCell(cell);
    ParseParts(cell);
    ParseParts(s.thresholdReplaceWith);
    var p1 := if s.applyThreshold then ApplyThreshold(p0, s.thresholdValue, s.thresholdReplaceWith) else p0;
    if s.applyUnitConversion && !p1.Special? then ConvertUnit(p1, s.targetUnitPrefix) else p1
  }

  predicate RaisingStyle(s: Settings) {
    s.applyNotationConversion && (s.notationStyle == "engineering" || s.notationStyle == "prefix")
  }

  /** Step 4 for a number: the cell text, and the number as the later steps
      see it (`sci_to_prefix` converts it in place). */
  function Notation(v: Parsed, s: Settings, render: Render): (r: Result<(string, Parsed), Failure>)
    requires v.Numeric?
    ensures r.Err? <==> RaisingStyle(s) && Base(v) < 0.0
    ensures r.Ok? ==> r.value.1.Numeric? && Base(r.value.1) == Base(v) && r.value.1.unit == v.unit
    ensures r.Ok? && TableParts(v) ==> TableParts(r.value.1)
    ensures !s.applyNotationConversion ==> r == Ok((Format(v, render), v))
    ensures s.applyNotationConversion && s.notationStyle == "scientific" ==> r == Ok((ToScientific(v, render), v))
    ensures s.applyNotationConversion && s.notationStyle == "engineering" && r.Ok? ==>
      Ok(r.value.0) == ToEngineering(v, render) && r.value.1 == v
    ensures s.applyNotationConversion && s.notationStyle == "prefix" && r.Ok? ==>
      Ok(r.value.1) == SciToPrefix(v) && r.value.0 == Format(r.value.1, render)
    ensures !RaisingStyle(s) && s.notationStyle != "scientific" ==> r == Ok((Format(v, render), v))
  {
    var plain := Format(v, render);
    if !s.applyNotationConversion then Ok((plain, v))
    else if s.notationStyle == "scientific" then Ok((ToScientific(v, render), v))
    else if s.notationStyle == "engineering" then
      match ToEngineering(v, render)
      case Ok(t) => Ok((t, v))
      case Err(e) => Err(e)
    else if s.notationStyle == "prefix" then
      match SciToPrefix(v)
      case Ok(w) => Ok((Format(w, render), w))
      case Err(e) => Err(e)
    else Ok((plain, v))
  }

  /** Step 5 applies: the copy strategy does not override the split. */
  predicate Splits(s: Settings) {
    s.splitValueUnit && s.copyStrategy != "value_only" && s.copyStrategy != "unit_only"
  }

  /** Steps 5 and 6. */
  function Finish(text: string, v: Parsed, s: Settings, render: Render): (r: string)
    requires v.Numeric?
    ensures s.copyStrategy == "value_only" ==> r == render.eng(v.number)
    ensures s.copyStrategy == "unit_only" ==> r == v.prefix + v.unit
    ensures Splits(s) ==> r == render.eng(v.number) + "\t" + v.prefix + v.unit
    ensures !Splits(s) && s.copyStrategy != "value_only" && s.copyStrategy != "unit_only" ==> r == text
  {
    var split := if s.splitValueUnit then render.eng(v.number) + "\t" + v.prefix + v.unit else text;
    if s.copyStrategy == "value_only" then render.eng(v.number)
    else if s.copyStrategy == "unit_only" then v.prefix + v.unit
    else split
  }

  /** One cell of `process_tsv`. Anything but a number comes out as its
      stripped text; only a negative number under engineering or prefix
      notation raises. */
  function ProcessCell(cell: string, s: Settings, render: Render): (r: Result<string, Failure>)
    ensures !Transform(cell, s).Numeric? ==> r == Ok(Transform(cell, s).original)
    ensures r.Err? <==> Transform(cell, s).Numeric? && RaisingStyle(s) && Base(Transform(cell, s)) < 0.0
  {
    var v := Transform(cell, s);
    if !v.Numeric? then Ok(Format(v, render))
    else
      match Notation(v, s, render)
      case Err(e) => Err(e)
      case Ok(tv) => Ok(Finish(tv.0, tv.1, s, render))
  }

  /** The cells of each line, as `split('\n')` and `split('\t')` cut them. */
  function Cells(text: string): (rows: seq<seq<string>>)
    ensures |rows| == |Split(Strip(text), '\n')|
    ensures forall i :: 0 <= i < |rows| ==> rows[i] == Split(Split(Strip(text), '\n')[i], '\t')
  {
    var lines := Split(Strip(text), '\n');
    seq(|lines|, i requires 0 <= i < |lines| => Split(lines[i], '\t'))
  }

  function ProcessRow(cells: seq<string>, s: Settings, render: Render): Result<seq<string>, Failure> {
    MapAll(cells, cell => ProcessCell(cell, s, render))
  }

  /** A row comes out when every one of its cells does, each cell as
      `ProcessCell` writes it. */
  lemma ProcessRowCells(cells: seq<string>, s: Settings, render: Render)
    ensures var r := ProcessRow(cells, s, render);
      && (r.Ok? <==> forall i :: 0 <= i < |cells| ==> ProcessCell(cells[i], s, render).Ok?)
      && (r.Ok? ==> |r.value| == |cells| && forall i :: 0 <= i < |cells| ==> ProcessCell(cells[i], s, render) == Ok(r.value[i]))
  {
  }

  function JoinRows(rows: seq<seq<string>>): string {
    Join(seq(|rows|, i requires 0 <= i < |rows| => Join(rows[i], '\t')), '\n')
  }

  /** `process_tsv`: the processed cells, joined back with tabs and newlines;
      the first cell that raises aborts the whole block. */
  function ProcessTsv(text: string, s: Settings, render: Render): (r: Result<string, Failure>)
  {
    match MapAll(Cells(text), row => ProcessRow(row, s, render))
    case Err(e) => Err(e)
    case Ok(rows) => Ok(JoinRows(rows))
  }

  // ---------------------------------------------------------------------------
  // properties

  /** A cell that is not a number passes through as its stripped text, whatever
      the settings. */
  lemma PassThrough(cell: string, s: Settings, render: Render)
    requires !ParseCell(cell).Numeric?
    ensures ProcessCell(cell, s, render) == Ok(Strip(cell))
  {
  }

  /** With the default settings every cell is just parsed and formatted again. */
  lemma DefaultsReformat(cell: string, render: Render)
    ensures ProcessCell(cell, Defaults, render) == Ok(Format(ParseCell(cell), render))
  {
  }

  /** Without threshold replacement the later steps keep the base value of the
      number the cell spells. */
  lemma TransformKeepsBase(cell: string, s: Settings)
    requires ParseCell(cell).Numeric? && !Below(ParseCell(cell), s.thresholdValue)
    ensures Transform(cell, s).Numeric? && Base(Transform(cell, s)) == Base(ParseCell(cell))
  {
  }

  /** The renderers never produce the character `c`. */
  ghost predicate RenderAvoids(render: Render, c: char) {
    forall x :: c !in render.eng(x) && c !in render.sci(x)
  }

  lemma ExponentTextAvoids(p: int, c: char)
    requires c == '\n' || c == '\t'
    ensures c !in ExponentText(p)
  {
    var t := ExponentText(p);
    ExponentTextValue(p);
    assert t == [t[0]] + t[1..];
    assert forall i :: 0 <= i < |t[1..]| ==> IsDigit(t[1..][i]);
  }

  lemma PartsAvoid(v: Parsed, c: char)
    requires v.Numeric? && TableParts(v) && (c == '\n' || c == '\t')
    ensures c !in v.prefix && c !in v.unit
  {
    assert forall i :: 0 <= i < |v.unit| ==> IsLetter(v.unit[i]);
  }

  lemma NotationAvoids(v: Parsed, s: Settings, render: Render, c: char)
    requires v.Numeric? && TableParts(v) && (c == '\n' || c == '\t')
    requires RenderAvoids(render, c)
    requires Notation(v, s, render).Ok?
    ensures c !in Notation(v, s, render).value.0
  {
    PartsAvoid(v, c);
    var w := Notation(v, s, render).value.1;
    PartsAvoid(w, c);
    if Base(v) > 0.0 {
      ExponentTextAvoids(EngExponentAsWritten(Base(v)), c);
    }
  }

  /** A processed cell contains neither line break nor tab when the cell, the
      replacement text and the renderers have none, except for the tab a split
      puts in. */
  lemma CellAvoids(cell: string, s: Settings, render: Render, c: char)
    requires c == '\n' || c == '\t'
    requires c !in cell && c !in s.thresholdReplaceWith && RenderAvoids(render, c)
    requires c == '\t' ==> !Splits(s)
    requires ProcessCell(cell, s, render).Ok?
    ensures c !in ProcessCell(cell, s, render).value
  {
    var v := Transform(cell, s);
    StripExcludes(cell, c);
    StripExcludes(s.thresholdReplaceWith, c);
    if v.Numeric? {
      NotationAvoids(v, s, render, c);
      var w := Notation(v, s, render).value.1;
      PartsAvoid(w, c);
    }
  }

  /** The rows the processed cells form. */
  lemma RowsOfCells(text: string, s: Settings, render: Render)
    requires ProcessTsv(text, s, render).Ok?
    ensures var rows := MapAll(Cells(text), row => ProcessRow(row, s, render));
      && rows.Ok? && ProcessTsv(text, s, render).value == JoinRows(rows.value)
      && |rows.value| == |Cells(text)|
      && forall i :: 0 <= i < |rows.value| ==> ProcessRow(Cells(text)[i], s, render) == Ok(rows.value[i])
  {
  }

  /** The input is cut into cells free of line breaks and tabs. */
  lemma CellsClean(text: string, i: int, j: int)
    requires 0 <= i < |Cells(text)| && 0 <= j < |Cells(text)[i]|
    ensures '\n' !in Cells(text)[i][j] && '\t' !in Cells(text)[i][j]
  {
    var lines := Split(Strip(text), '\n');
    SplitExcludes(lines[i], '\t', '\n');
  }

  /** `process_tsv` keeps the shape of the table: one output line per input
      line, one output cell per input cell, each the processed input cell, as
      long as the replacement text and the renderers add no tab or line break
      and values are not split off their units. */
  lemma TableShape(text: string, s: Settings, render: Render)
    requires RenderAvoids(render, '\n') && RenderAvoids(render, '\t')
    requires '\n' !in s.thresholdReplaceWith && '\t' !in s.thresholdReplaceWith
    requires !Splits(s)
    requires ProcessTsv(text, s, render).Ok?
    ensures var out := Split(ProcessTsv(text, s, render).value, '\n');
      && |out| == |Cells(text)|
      && forall i :: 0 <= i < |out| ==>
        && |Split(out[i], '\t')| == |Cells(text)[i]|
        && forall j :: 0 <= j < |Cells(text)[i]| ==> ProcessCell(Cells(text)[i][j], s, render) == Ok(Split(out[i], '\t')[j])
  {
    RowsOfCells(text, s, render);
    var rows := MapAll(Cells(text), row => ProcessRow(row, s, render)).value;
    ProcessedClean(text, s, render);
    JoinRowsSplit(rows);
    var out := Split(JoinRows(rows), '\n');
    forall i | 0 <= i < |out|
      ensures |Split(out[i], '\t')| == |Cells(text)[i]|
      ensures forall j :: 0 <= j < |Cells(text)[i]| ==> ProcessCell(Cells(text)[i][j], s, render) == Ok(Split(out[i], '\t')[j])
    {
      assert ProcessRow(Cells(text)[i], s, render) == Ok(rows[i]);
      assert Split(out[i], '\t') == rows[i];
    }
  }

  /** `process_tsv` writes one line per line of the stripped input, each the
      tab-joined processed cells of that line, whatever the settings, as long
      as the replacement text and the renderers add no line break. A split
      value and unit share their line, separated by a tab. */
  lemma LineCount(text: string, s: Settings, render: Render)
    requires RenderAvoids(render, '\n') && '\n' !in s.thresholdReplaceWith
    requires ProcessTsv(text, s, render).Ok?
    ensures var out := Split(ProcessTsv(text, s, render).value, '\n');
      && |out| == |Split(Strip(text), '\n')|
      && forall i :: 0 <= i < |out| ==>
        ProcessRow(Cells(text)[i], s, render).Ok? && out[i] == Join(ProcessRow(Cells(text)[i], s, render).value, '\t')
  {
    RowsOfCells(text, s, render);
    var rows := MapAll(Cells(text), row => ProcessRow(row, s, render)).value;
    var lines := seq(|rows|, i requires 0 <= i < |rows| => Join(rows[i], '\t'));
    forall i | 0 <= i < |rows|
      ensures '\n' !in lines[i]
    {
      LineAvoids(text, s, render, i, rows[i]);
      JoinExcludes(rows[i], '\t', '\n');
    }
    RowSplit2(lines);
  }

  /** The processed cells of one line hold no line break. */
  lemma LineAvoids(text: string, s: Settings, render: Render, i: int, row: seq<string>)
    requires RenderAvoids(render, '\n') && '\n' !in s.thresholdReplaceWith
    requires 0 <= i < |Cells(text)| && ProcessRow(Cells(text)[i], s, render) == Ok(row)
    ensures forall j :: 0 <= j < |row| ==> '\n' !in row[j]
  {
    ProcessRowCells(Cells(text)[i], s, render);
    forall j | 0 <= j < |row|
      ensures '\n' !in row[j]
    {
      CellsClean(text, i, j);
      CellAvoids(Cells(text)[i][j], s, render, '\n');
    }
  }

  /** Every processed cell is free of line breaks and tabs. */
  lemma ProcessedClean(text: string, s: Settings, render: Render)
    requires RenderAvoids(render, '\n') && RenderAvoids(render, '\t')
    requires '\n' !in s.thresholdReplaceWith && '\t' !in s.thresholdReplaceWith
    requires !Splits(s)
    requires MapAll(Cells(text), row => ProcessRow(row, s, render)).Ok?
    requires forall i :: 0 <= i < |Cells(text)| ==>
      ProcessRow(Cells(text)[i], s, render) == Ok(MapAll(Cells(text), row => ProcessRow(row, s, render)).value[i])
    ensures var rows := MapAll(Cells(text), row => ProcessRow(row, s, render)).value;
      forall i, j :: 0 <= i < |rows| && 0 <= j < |rows[i]| ==> '\n' !in rows[i][j] && '\t' !in rows[i][j]
  {
    var rows := MapAll(Cells(text), row => ProcessRow(row, s, render)).value;
    forall i, j | 0 <= i < |rows| && 0 <= j < |rows[i]|
      ensures '\n' !in rows[i][j] && '\t' !in rows[i][j]
    {
      CellsClean(text, i, j);
      CellAvoids(Cells(text)[i][j], s, render, '\n');
      CellAvoids(Cells(text)[i][j], s, render, '\t');
    }
  }

  /** Rows of clean cells are recovered by splitting their joined text. */
  lemma JoinRowsSplit(rows: seq<seq<string>>)
    requires forall i, j :: 0 <= i < |rows| && 0 <= j < |rows[i]| ==> '\n' !in rows[i][j] && '\t' !in rows[i][j]
    ensures var out := Split(JoinRows(rows), '\n');
      && |out| == (if |rows| == 0 then 1 else |rows|)
      && forall i :: 0 <= i < |rows| ==> Split(out[i], '\t') == (if |rows[i]| == 0 then [""] else rows[i])
  {
    var lines := seq(|rows|, i requires 0 <= i < |rows| => Join(rows[i], '\t'));
    forall i | 0 <= i < |rows|
      ensures '\n' !in lines[i] && Split(lines[i], '\t') == (if |rows[i]| == 0 then [""] else rows[i])
    {
      JoinExcludes(rows[i], '\t', '\n');
      RowSplit(rows[i]);
    }
    RowSplit2(lines);
  }

  lemma RowSplit(row: seq<string>)
    requires forall j :: 0 <= j < |row| ==> '\t' !in row[j]
    ensures Split(Join(row, '\t'), '\t') == (if |row| == 0 then [""] else row)
  {
    if |row| > 0 {
      SplitJoin(row, '\t');
    }
  }

  lemma RowSplit2(lines: seq<string>)
    requires forall j :: 0 <= j < |lines| ==> '\n' !in lines[j]
    ensures Split(Join(lines, '\n'), '\n') == (if |lines| == 0 then [""] else lines)
  {
    if |lines| > 0 {
      SplitJoin(lines, '\n');
    }
  }
}
