/** `reconstruct_table` of the older top-level layout.py: the same row
    clustering and grid as src/work_ocr/layout.py, but no horizontal merging,
    columns from the centres of all fragments, and the mean fragment width as
    the column gap threshold. Its `normalize_bbox`, `detect_mode` and
    `reconstruct_text` are the current ones (modules Geometry, Detect and
    TextLayout). */
module LegacyLayout {
  import opened Sequences
  import opened Sorting
  import opened Strings
  import opened Geometry
  import opened Rows
  import opened Columns
  import opened Merge
  import opened Table

  /** Column boundaries from every fragment's centre, gap threshold `avg_w`,
      de-duplicated within `avg_h`. */
  function LegacyColumns(items: seq<Item>): seq<real>
    requires |items| > 0
  {
    ColumnBoundaries(Centres(items), MeanWidth(items), MeanHeight(items))
  }

  function ReconstructTable(dets: seq<Detection>, rowRatio: real): (tsv: string)
    ensures |dets| == 0 ==> tsv == ""
  {
    if |dets| == 0 then "" else LegacyTsv(Items(dets), rowRatio)
  }

  function LegacyTsv(items: seq<Item>, rowRatio: real): string
    requires |items| > 0
  {
    ToTsv(BuildGrid(ClusteredRows(items, rowRatio), LegacyColumns(items)))
  }

  /** The older TSV read back: one line per clustered row, one cell per
      boundary, each cell the space-joined texts of the fragments nearest to
      it, for fragment texts free of tabs and newlines. */
  lemma LegacyTableShape(dets: seq<Detection>, rowRatio: real)
    requires |dets| > 0
    requires forall k :: 0 <= k < |dets| ==> '\t' !in dets[k].text && '\n' !in dets[k].text
    ensures var items := Items(dets);
      var rows := ClusteredRows(items, rowRatio);
      var cols := LegacyColumns(items);
      && 0 < |rows| <= |dets| && |cols| > 0
      && ReadsAsGrid(Split(LegacyTsv(items, rowRatio), '\n'), rows, cols)
  {
    var items := Items(dets);
    var rows: seq<seq<Item>> := ClusteredRows(items, rowRatio);
    var cols := LegacyColumns(items);
    ColumnsExist(Centres(items), MeanWidth(items), MeanHeight(items));
    forall i | 0 <= i < |rows|
      ensures forall k :: 0 <= k < |rows[i]| ==> '\t' !in rows[i][k].text && '\n' !in rows[i][k].text
    {
      ClusteredRowFacts(dets, rowRatio, '\t', i);
      ClusteredRowFacts(dets, rowRatio, '\n', i);
    }
    GridRead(rows, cols);
  }

  /** No clustered row has a fragment touching the one before it. */
  predicate NothingTouches(items: seq<Item>, rowRatio: real, mergeRatio: real)
    requires |items| > 0
  {
    var rows := ClusteredRows(items, rowRatio);
    forall i :: 0 <= i < |rows| ==> NoTouches(rows[i], CharWidthByLength(items) * mergeRatio)
  }

  /** Without touching fragments merging leaves the clustered rows alone. */
  lemma RowsUnmerged(items: seq<Item>, rowRatio: real, mergeRatio: real)
    requires |items| > 0 && NothingTouches(items, rowRatio, mergeRatio)
    ensures TableRows(items, rowRatio, mergeRatio) == ClusteredRows(items, rowRatio)
  {
    var clustered := ClusteredRows(items, rowRatio);
    var rows := TableRows(items, rowRatio, mergeRatio);
    forall i | 0 <= i < |clustered| ensures rows[i] == clustered[i] {
      MergeRowIdentity(clustered[i], CharWidthByLength(items) * mergeRatio);
    }
  }

  /** The current columns of unmerged rows are the older columns when the
      gap thresholds agree: the order of the centres does not matter. */
  lemma ColumnsAgree(items: seq<Item>, rowRatio: real, colGapRatio: real)
    requires |items| > 0
    requires CharWidthByLength(items) * colGapRatio == MeanWidth(items)
    ensures TableColumns(items, ClusteredRows(items, rowRatio), colGapRatio) == LegacyColumns(items)
  {
    var clustered := ClusteredRows(items, rowRatio);
    CentresPermutation(Flatten(clustered), items);
    SortRealsPermutation(Centres(Flatten(clustered)), Centres(items));
  }

  /** Without touching fragments, and with a column gap threshold equal to the
      mean fragment width, the current `reconstruct_table` produces exactly
      the older one's TSV: merging and the threshold are the only changes. */
  lemma CurrentExtendsLegacy(items: seq<Item>, rowRatio: real, colGapRatio: real, mergeRatio: real)
    requires |items| > 0
    requires NothingTouches(items, rowRatio, mergeRatio)
    requires CharWidthByLength(items) * colGapRatio == MeanWidth(items)
    ensures TableTsv(items, rowRatio, colGapRatio, mergeRatio) == LegacyTsv(items, rowRatio)
  {
    RowsUnmerged(items, rowRatio, mergeRatio);
    ColumnsAgree(items, rowRatio, colGapRatio);
  }
}
