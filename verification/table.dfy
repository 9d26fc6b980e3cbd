/** `reconstruct_table` of src/work_ocr/layout.py: rows by vertical centre,
    horizontal merging of touching fragments, columns from the merged
    fragments' centres, and the grid written out as TSV. */
module Table {
  import opened Sequences
  import opened Strings
  import opened Geometry
  import opened Rows
  import opened Columns
  import opened Merge

  const DefaultRowHeightRatio: real := 0.5
  const DefaultColGapThresholdRatio: real := 1.0
  const DefaultMergeThresholdRatio: real := 0.5

  /** Rows clustered on the vertical centre with tolerance `avg_h *
      row_height_ratio`, each sorted by horizontal centre, before merging. */
  function ClusteredRows(items: seq<Item>, rowRatio: real): seq<seq<Item>>
    requires |items| > 0
  {
    GroupRows(items, Cy, MeanHeight(items) * rowRatio, Cx)
  }

  /** The rows after horizontal merging with threshold `avg_char_w *
      horizontal_merge_threshold_ratio`. */
  function TableRows(items: seq<Item>, rowRatio: real, mergeRatio: real): seq<seq<Item>>
    requires |items| > 0
  {
    var rows := ClusteredRows(items, rowRatio);
    seq(|rows|, i requires 0 <= i < |rows| => MergeRow(rows[i], CharWidthByLength(items) * mergeRatio))
  }

  /** The column boundaries: centres of the merged fragments, gap threshold
      `avg_char_w * col_gap_threshold_ratio`, de-duplicated within `avg_h`. */
  function TableColumns(items: seq<Item>, rows: seq<seq<Item>>, colGapRatio: real): seq<real>
    requires |items| > 0
  {
    ColumnBoundaries(Centres(Flatten(rows)), CharWidthByLength(items) * colGapRatio, MeanHeight(items))
  }

  /** The TSV text of a non-empty page. */
  function TableTsv(items: seq<Item>, rowRatio: real, colGapRatio: real, mergeRatio: real): string
    requires |items| > 0
  {
    var rows := TableRows(items, rowRatio, mergeRatio);
    ToTsv(BuildGrid(rows, TableColumns(items, rows, colGapRatio)))
  }

  function ReconstructTable(dets: seq<Detection>, rowRatio: real, colGapRatio: real, mergeRatio: real): (tsv: string)
    ensures |dets| == 0 ==> tsv == ""
  {
    if |dets| == 0 then "" else TableTsv(Items(dets), rowRatio, colGapRatio, mergeRatio)
  }

  // ---------------------------------------------------------------------------
  // what the table holds

  lemma ItemsWellFormed(dets: seq<Detection>)
    ensures forall i :: 0 <= i < |dets| ==> WellFormed(Items(dets)[i].box)
  {
  }

  /** Every fragment of a clustered row is one of the page's fragments. */
  lemma ClusteredFromItems(items: seq<Item>, rowRatio: real, i: int, x: Item)
    requires |items| > 0
    requires 0 <= i < |ClusteredRows(items, rowRatio)| && x in ClusteredRows(items, rowRatio)[i]
    ensures x in items
  {
    var rows := ClusteredRows(items, rowRatio);
    FlattenMember(rows, i, x);
    assert x in multiset(Flatten(rows));
  }

  lemma {:induction false} FlattenNonEmpty<T>(rows: seq<seq<T>>)
    requires |rows| > 0 && |rows[0]| > 0
    ensures |Flatten(rows)| > 0
  {
  }

  /** A merged row: not empty, the same words as its clustered row, and no
      text with a character (other than a space) that no fragment text has. */
  ghost predicate MergedRowOk(row: seq<Item>, clustered: seq<Item>, ch: char) {
    && |row| > 0
    && Join(Texts(row), ' ') == Join(Texts(clustered), ' ')
    && (forall k :: 0 <= k < |row| ==> ch !in row[k].text)
  }

  lemma ClusteredRowFacts(dets: seq<Detection>, rowRatio: real, ch: char, i: int)
    requires |dets| > 0
    requires forall k :: 0 <= k < |dets| ==> ch !in dets[k].text
    requires 0 <= i < |ClusteredRows(Items(dets), rowRatio)|
    ensures var row := ClusteredRows(Items(dets), rowRatio)[i];
      |row| > 0 && forall k :: 0 <= k < |row| ==> WellFormed(row[k].box) && ch !in row[k].text
  {
    var items := Items(dets);
    var row := ClusteredRows(items, rowRatio)[i];
    ItemsWellFormed(dets);
    forall k | 0 <= k < |row|
      ensures WellFormed(row[k].box) && ch !in row[k].text
    {
      ClusteredFromItems(items, rowRatio, i, row[k]);
    }
  }

  lemma TableRowsAt(items: seq<Item>, rowRatio: real, mergeRatio: real, i: int)
    requires |items| > 0 && 0 <= i < |ClusteredRows(items, rowRatio)|
    ensures |TableRows(items, rowRatio, mergeRatio)| == |ClusteredRows(items, rowRatio)|
    ensures TableRows(items, rowRatio, mergeRatio)[i]
         == MergeRow(ClusteredRows(items, rowRatio)[i], CharWidthByLength(items) * mergeRatio)
  {
  }

  lemma MergedOk(row: seq<Item>, t: real, ch: char)
    requires |row| > 0 && ch != ' '
    requires forall k :: 0 <= k < |row| ==> WellFormed(row[k].box) && ch !in row[k].text
    ensures MergedRowOk(MergeRow(row, t), row, ch)
  {
    MergeRowShape(row, t);
    MergeRowText(row, t);
    MergeRowExcludes(row, t, ch);
  }

  lemma MergedRowFacts(dets: seq<Detection>, rowRatio: real, mergeRatio: real, ch: char, i: int)
    requires |dets| > 0 && ch != ' '
    requires forall k :: 0 <= k < |dets| ==> ch !in dets[k].text
    requires 0 <= i < |ClusteredRows(Items(dets), rowRatio)|
    ensures MergedRowOk(TableRows(Items(dets), rowRatio, mergeRatio)[i], ClusteredRows(Items(dets), rowRatio)[i], ch)
  {
    var items := Items(dets);
    var row := ClusteredRows(items, rowRatio)[i];
    var t := CharWidthByLength(items) * mergeRatio;
    ClusteredRowFacts(dets, rowRatio, ch, i);
    MergedOk(row, t, ch);
    TableRowsAt(items, rowRatio, mergeRatio, i);
  }

  /** The merged rows: one per clustered row, at most one per fragment, and
      each a well-merged version of its clustered row. */
  lemma TableRowsShape(dets: seq<Detection>, rowRatio: real, mergeRatio: real, ch: char)
    requires |dets| > 0 && ch != ' '
    requires forall k :: 0 <= k < |dets| ==> ch !in dets[k].text
    ensures var rows := TableRows(Items(dets), rowRatio, mergeRatio);
      var clustered := ClusteredRows(Items(dets), rowRatio);
      && |rows| == |clustered| && 0 < |rows| <= |dets|
      && forall i :: 0 <= i < |rows| ==> MergedRowOk(rows[i], clustered[i], ch)
  {
    var rows := TableRows(Items(dets), rowRatio, mergeRatio);
    forall i | 0 <= i < |rows|
      ensures MergedRowOk(rows[i], ClusteredRows(Items(dets), rowRatio)[i], ch)
    {
      MergedRowFacts(dets, rowRatio, mergeRatio, ch, i);
    }
  }

  /** The merged rows are no more than the fragments, and their texts hold
      no tab or newline when the fragments' texts hold none. */
  lemma TableRowsClean(dets: seq<Detection>, rowRatio: real, mergeRatio: real)
    requires |dets| > 0
    requires forall k :: 0 <= k < |dets| ==> '\t' !in dets[k].text && '\n' !in dets[k].text
    ensures var rows := TableRows(Items(dets), rowRatio, mergeRatio);
      && 0 < |rows| <= |dets| && |rows[0]| > 0
      && forall i, k :: 0 <= i < |rows| && 0 <= k < |rows[i]| ==>
           '\t' !in rows[i][k].text && '\n' !in rows[i][k].text
  {
    var rows: seq<seq<Item>> := TableRows(Items(dets), rowRatio, mergeRatio);
    var clustered := ClusteredRows(Items(dets), rowRatio);
    TableRowsShape(dets, rowRatio, mergeRatio, '\t');
    TableRowsShape(dets, rowRatio, mergeRatio, '\n');
    forall i, k | 0 <= i < |rows| && 0 <= k < |rows[i]|
      ensures '\t' !in rows[i][k].text && '\n' !in rows[i][k].text
    {
      assert MergedRowOk(rows[i], clustered[i], '\t') && MergedRowOk(rows[i], clustered[i], '\n');
    }
    assert MergedRowOk(rows[0], clustered[0], '\t');
  }

  /** Read back line by line and cell by cell, the TSV text is the grid: one
      line per merged row, one cell per column boundary, and in each cell the
      space-joined texts of the fragments whose nearest boundary it is. This
      needs fragment texts free of tabs and newlines. */
  lemma TableShape(dets: seq<Detection>, rowRatio: real, colGapRatio: real, mergeRatio: real)
    requires |dets| > 0
    requires forall k :: 0 <= k < |dets| ==> '\t' !in dets[k].text && '\n' !in dets[k].text
    ensures var items := Items(dets);
      var rows := TableRows(items, rowRatio, mergeRatio);
      var cols := TableColumns(items, rows, colGapRatio);
      && 0 < |rows| <= |dets| && |cols| > 0
      && ReadsAsGrid(Split(TableTsv(items, rowRatio, colGapRatio, mergeRatio), '\n'), rows, cols)
  {
    var items := Items(dets);
    var rows := TableRows(items, rowRatio, mergeRatio);
    var cols := TableColumns(items, rows, colGapRatio);
    TableRowsClean(dets, rowRatio, mergeRatio);
    FlattenNonEmpty(rows);
    ColumnsExist(Centres(Flatten(rows)), CharWidthByLength(items) * colGapRatio, MeanHeight(items));
    GridRead(rows, cols);
  }
}
