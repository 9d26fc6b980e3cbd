/** Column detection and cell placement of `reconstruct_table`: candidate
    column boundaries from gaps between sorted centres, first-fit
    de-duplication, nearest-boundary assignment and the TSV text. */
module Columns {
  import opened Sequences
  import opened Sorting
  import opened Strings
  import opened Geometry

  ghost predicate Ascends(xs: seq<real>) {
    forall i, j :: 0 <= i < j < |xs| ==> xs[i] <= xs[j]
  }

  // ---------------------------------------------------------------------------
  // candidate boundaries

  /** Position `k` of the sorted centres opens a column: it is the first one,
      or it lies more than `gap` to the right of its predecessor. */
  predicate Opens(xs: seq<real>, k: int, gap: real) {
    0 <= k < |xs| && (k == 0 || xs[k] - xs[k - 1] > gap)
  }

  /** The centres that open a column, in their sorted order. */
  function Boundaries(xs: seq<real>, gap: real): (r: seq<real>)
    ensures |r| <= |xs|
    ensures |xs| > 0 ==> |r| > 0 && r[0] == xs[0]
    ensures forall x :: x in r ==> x in xs
    decreases |xs|
  {
    if |xs| == 0 then []
    else
      var n := |xs| - 1;
      var init := Boundaries(xs[..n], gap);
      assert forall x :: x in init ==> x in xs by {
        forall x | x in init ensures x in xs {
          var k :| 0 <= k < n && xs[..n][k] == x;
        }
      }
      init + (if Opens(xs, n, gap) then [xs[n]] else [])
  }

  /** A centre is a boundary exactly when it opens a column. */
  lemma {:induction false} BoundariesMembers(xs: seq<real>, gap: real)
    ensures forall x :: x in Boundaries(xs, gap) <==> exists k :: Opens(xs, k, gap) && xs[k] == x
    decreases |xs|
  {
    if |xs| > 0 {
      var n := |xs| - 1;
      BoundariesMembers(xs[..n], gap);
      assert forall k :: 0 <= k < n ==> (Opens(xs[..n], k, gap) <==> Opens(xs, k, gap));
      forall x | (exists k :: Opens(xs, k, gap) && xs[k] == x)
        ensures x in Boundaries(xs, gap)
      {
        var k :| Opens(xs, k, gap) && xs[k] == x;
        if k < n {
          assert Opens(xs[..n], k, gap) && xs[..n][k] == x;
        }
      }
    }
  }

  /** The boundaries of sorted centres are sorted. */
  lemma {:induction false} BoundariesAscend(xs: seq<real>, gap: real)
    requires Ascends(xs)
    ensures Ascends(Boundaries(xs, gap))
    decreases |xs|
  {
    if |xs| > 0 {
      var n := |xs| - 1;
      assert Ascends(xs[..n]);
      BoundariesAscend(xs[..n], gap);
      var init := Boundaries(xs[..n], gap);
      forall i | 0 <= i < |init| ensures init[i] <= xs[n] {
        assert init[i] in xs[..n];
      }
    }
  }

  // ---------------------------------------------------------------------------
  // first-fit de-duplication

  /** `x` is at least `minSep` away from every accepted boundary. */
  predicate FarFromAll(x: real, accepted: seq<real>, minSep: real) {
    forall u :: u in accepted ==> Abs(x - u) >= minSep
  }

  ghost predicate Separated(xs: seq<real>, minSep: real) {
    forall i, j :: 0 <= i < j < |xs| ==> Abs(xs[i] - xs[j]) >= minSep
  }

  /** The `for x in col_boundaries[1:]` loop with `unique_cols` as accumulator. */
  function DedupFrom(accepted: seq<real>, rest: seq<real>, minSep: real): seq<real>
    decreases |rest|
  {
    if |rest| == 0 then accepted
    else if FarFromAll(rest[0], accepted, minSep) then DedupFrom(accepted + [rest[0]], rest[1..], minSep)
    else DedupFrom(accepted, rest[1..], minSep)
  }

  lemma {:induction false} DedupFromPrefix(accepted: seq<real>, rest: seq<real>, minSep: real)
    ensures var r := DedupFrom(accepted, rest, minSep);
      |r| >= |accepted| && r[..|accepted|] == accepted
    decreases |rest|
  {
    if |rest| > 0 {
      var x := rest[0];
      if FarFromAll(x, accepted, minSep) {
        var a := accepted + [x];
        DedupFromPrefix(a, rest[1..], minSep);
        var r := DedupFrom(a, rest[1..], minSep);
        assert r[..|accepted|] == r[..|a|][..|accepted|];
      } else {
        DedupFromPrefix(accepted, rest[1..], minSep);
      }
    }
  }

  lemma {:induction false} DedupFromMembers(accepted: seq<real>, rest: seq<real>, minSep: real)
    ensures forall x :: x in DedupFrom(accepted, rest, minSep) ==> x in accepted || x in rest
    decreases |rest|
  {
    if |rest| > 0 {
      var x := rest[0];
      assert rest == [x] + rest[1..];
      if FarFromAll(x, accepted, minSep) {
        DedupFromMembers(accepted + [x], rest[1..], minSep);
      } else {
        DedupFromMembers(accepted, rest[1..], minSep);
      }
    }
  }

  lemma SeparatedAppend(accepted: seq<real>, x: real, minSep: real)
    requires Separated(accepted, minSep) && FarFromAll(x, accepted, minSep)
    ensures Separated(accepted + [x], minSep)
  {
    var a := accepted + [x];
    forall i, j | 0 <= i < j < |a| ensures Abs(a[i] - a[j]) >= minSep {
      if j == |accepted| {
        assert a[i] in accepted;
      } else {
        assert a[i] == accepted[i] && a[j] == accepted[j];
      }
    }
  }

  lemma {:induction false} DedupFromSeparated(accepted: seq<real>, rest: seq<real>, minSep: real)
    requires Separated(accepted, minSep)
    ensures Separated(DedupFrom(accepted, rest, minSep), minSep)
    decreases |rest|
  {
    if |rest| > 0 {
      var x := rest[0];
      if FarFromAll(x, accepted, minSep) {
        SeparatedAppend(accepted, x, minSep);
        DedupFromSeparated(accepted + [x], rest[1..], minSep);
      } else {
        DedupFromSeparated(accepted, rest[1..], minSep);
      }
    }
  }

  lemma {:induction false} DedupFromCovers(accepted: seq<real>, rest: seq<real>, minSep: real)
    ensures var r := DedupFrom(accepted, rest, minSep);
      forall x :: x in rest ==> x in r || !FarFromAll(x, r, minSep)
    decreases |rest|
  {
    if |rest| > 0 {
      var x := rest[0];
      assert rest == [x] + rest[1..];
      var r := DedupFrom(accepted, rest, minSep);
      if FarFromAll(x, accepted, minSep) {
        var a := accepted + [x];
        DedupFromCovers(a, rest[1..], minSep);
        DedupFromPrefix(a, rest[1..], minSep);
        assert x == r[..|a|][|accepted|];
        assert x == r[|accepted|] && x in r;
      } else {
        DedupFromCovers(accepted, rest[1..], minSep);
        DedupFromPrefix(accepted, rest[1..], minSep);
        var u :| u in accepted && Abs(x - u) < minSep;
        assert u in r[..|accepted|];
        assert u in r;
        assert !FarFromAll(x, r, minSep);
      }
      forall y | y in rest ensures y in r || !FarFromAll(y, r, minSep) {
        if y != x {
          assert y in rest[1..];
        }
      }
    }
  }

  lemma AscendsDropFirst(accepted: seq<real>, rest: seq<real>)
    requires |rest| > 0 && Ascends(accepted + rest)
    ensures Ascends(accepted + rest[1..])
  {
    var s, t := accepted + rest, accepted + rest[1..];
    forall i, j | 0 <= i < j < |t| ensures t[i] <= t[j] {
      var i' := if i < |accepted| then i else i + 1;
      var j' := if j < |accepted| then j else j + 1;
      assert t[i] == s[i'] && t[j] == s[j'];
    }
  }

  lemma {:induction false} DedupFromAscends(accepted: seq<real>, rest: seq<real>, minSep: real)
    ensures Ascends(accepted + rest) ==> Ascends(DedupFrom(accepted, rest, minSep))
    decreases |rest|
  {
    if !Ascends(accepted + rest) {
    } else if |rest| == 0 {
      assert accepted + rest == accepted;
    } else {
      var x := rest[0];
      if FarFromAll(x, accepted, minSep) {
        assert accepted + rest == (accepted + [x]) + rest[1..];
        DedupFromAscends(accepted + [x], rest[1..], minSep);
      } else {
        AscendsDropFirst(accepted, rest);
        DedupFromAscends(accepted, rest[1..], minSep);
      }
    }
  }

  /** `unique_cols`: each candidate is kept when it is at least `minSep` from
      every boundary kept before it. The result starts with the first
      candidate, is pairwise separated, keeps only candidates, drops only
      candidates that are close to a kept one, and is sorted when the
      candidates are. */
  function Dedup(cands: seq<real>, minSep: real): (r: seq<real>)
    ensures |cands| > 0 ==> |r| > 0 && r[0] == cands[0]
    ensures |cands| == 0 ==> r == []
    ensures Separated(r, minSep)
    ensures forall x :: x in r ==> x in cands
    ensures forall x :: x in cands ==> x in r || !FarFromAll(x, r, minSep)
    ensures Ascends(cands) ==> Ascends(r)
  {
    if |cands| == 0 then []
    else
      var first, rest := [cands[0]], cands[1..];
      assert first + rest == cands;
      DedupFromPrefix(first, rest, minSep);
      DedupFromMembers(first, rest, minSep);
      DedupFromSeparated(first, rest, minSep);
      DedupFromCovers(first, rest, minSep);
      DedupFromAscends(first, rest, minSep);
      DedupFrom([cands[0]], cands[1..], minSep)
  }

  lemma AscendsSortedBy(xs: seq<real>)
    requires Ascends(xs)
    ensures SortedBy(xs, Identity)
  {
  }

  /** `col_boundaries = sorted(unique_cols)`, from the sorted centres. */
  function ColumnBoundaries(centers: seq<real>, gap: real, minSep: real): seq<real> {
    SortReals(Dedup(Boundaries(SortReals(centers), gap), minSep))
  }

  /** The final sort is a no-op: the de-duplicated boundaries of sorted
      centres are already sorted, so the columns are the first-fit
      de-duplication of the gap-opened centres in left-to-right order. */
  lemma FinalSortIsNoop(centers: seq<real>, gap: real, minSep: real)
    ensures ColumnBoundaries(centers, gap, minSep) == Dedup(Boundaries(SortReals(centers), gap), minSep)
  {
    var sorted := SortReals(centers);
    BoundariesAscend(sorted, gap);
    var d := Dedup(Boundaries(sorted, gap), minSep);
    AscendsSortedBy(d);
    SortSorted(d, Identity);
  }

  /** There is a boundary exactly when there is a centre. */
  lemma ColumnsExist(centers: seq<real>, gap: real, minSep: real)
    ensures |ColumnBoundaries(centers, gap, minSep)| > 0 <==> |centers| > 0
  {
  }

  // ---------------------------------------------------------------------------
  // cell placement

  /** The loop over `col_boundaries` with `min_dist = inf`: the index of the
      first boundary at the smallest distance from `x`, or -1 when there are
      no boundaries. */
  function NearestColumn(x: real, cols: seq<real>): (j: int)
    ensures |cols| == 0 <==> j == -1
    ensures |cols| > 0 ==> 0 <= j < |cols|
    decreases |cols|
  {
    if |cols| <= 1 then |cols| - 1
    else
      var n := |cols| - 1;
      var j := NearestColumn(x, cols[..n]);
      if Abs(x - cols[n]) < Abs(x - cols[j]) then n else j
  }

  /** The chosen boundary is at the smallest distance, and every earlier
      boundary is strictly farther (ties go to the first). */
  lemma {:induction false} NearestColumnBest(x: real, cols: seq<real>)
    requires |cols| > 0
    ensures var j := NearestColumn(x, cols);
      && (forall k :: 0 <= k < |cols| ==> Abs(x - cols[j]) <= Abs(x - cols[k]))
      && (forall k :: 0 <= k < j ==> Abs(x - cols[j]) < Abs(x - cols[k]))
    decreases |cols|
  {
    if |cols| > 1 {
      var n := |cols| - 1;
      var init := cols[..n];
      NearestColumnBest(x, init);
      var i := NearestColumn(x, init);
      var j := NearestColumn(x, cols);
      assert init[i] == cols[i];
      forall k | 0 <= k < |cols|
        ensures Abs(x - cols[j]) <= Abs(x - cols[k])
      {
        if k < n {
          assert init[k] == cols[k];
        }
      }
      forall k | 0 <= k < j
        ensures Abs(x - cols[j]) < Abs(x - cols[k])
      {
        assert init[k] == cols[k];
      }
    }
  }

  /** The nearest column is the only index that is at minimal distance with
      every earlier index strictly farther. */
  lemma NearestColumnUnique(x: real, cols: seq<real>, j: int)
    requires 0 <= j < |cols|
    requires forall k :: 0 <= k < |cols| ==> Abs(x - cols[j]) <= Abs(x - cols[k])
    requires forall k :: 0 <= k < j ==> Abs(x - cols[j]) < Abs(x - cols[k])
    ensures NearestColumn(x, cols) == j
  {
    NearestColumnBest(x, cols);
    var i := NearestColumn(x, cols);
    var di, dj := Abs(x - cols[i]), Abs(x - cols[j]);
    assert di == dj;
  }

  /** `grid[i][j] += " " + text` when the cell is non-empty, else `= text`. */
  function AppendCell(cell: string, text: string): string {
    if |cell| > 0 then cell + " " + text else text
  }

  /** The cell built from `texts` arriving one after another. */
  function FillCell(texts: seq<string>): string
    decreases |texts|
  {
    if |texts| == 0 then "" else AppendCell(FillCell(texts[..|texts| - 1]), texts[|texts| - 1])
  }

  function DropLeadingEmpty(texts: seq<string>): (r: seq<string>)
    ensures |r| > 0 ==> |r[0]| > 0
  {
    if |texts| > 0 && texts[0] == "" then DropLeadingEmpty(texts[1..]) else texts
  }

  lemma {:induction false} DropLeadingEmptyAppend(texts: seq<string>, t: string)
    ensures DropLeadingEmpty(texts + [t])
         == if DropLeadingEmpty(texts) == [] then DropLeadingEmpty([t]) else DropLeadingEmpty(texts) + [t]
  {
    if |texts| > 0 {
      assert (texts + [t])[1..] == texts[1..] + [t];
      if texts[0] == "" {
        DropLeadingEmptyAppend(texts[1..], t);
      }
    } else {
      assert texts + [t] == [t];
    }
  }

  lemma JoinNonEmpty(parts: seq<string>, sep: char)
    requires |parts| > 0 && |parts[0]| > 0
    ensures |Join(parts, sep)| > 0
  {
  }

  /** A cell is its texts joined by single spaces, once the empty texts that
      arrived while the cell was still empty are dropped. */
  lemma {:induction false} FillCellJoin(texts: seq<string>)
    ensures FillCell(texts) == Join(DropLeadingEmpty(texts), ' ')
    decreases |texts|
  {
    if |texts| > 0 {
      var n := |texts| - 1;
      var init, t := texts[..n], texts[n];
      assert texts == init + [t];
      FillCellJoin(init);
      DropLeadingEmptyAppend(init, t);
      var d := DropLeadingEmpty(init);
      if d != [] {
        JoinNonEmpty(d, ' ');
        JoinAppendLast(d, t, ' ');
      }
    }
  }

  /** The texts of the row's items whose nearest column is `c`, in row order. */
  function ColumnTexts(row: seq<Item>, cols: seq<real>, c: int): (r: seq<string>)
    ensures |r| <= |row|
    decreases |row|
  {
    if |row| == 0 then []
    else
      var n := |row| - 1;
      ColumnTexts(row[..n], cols, c) + (if NearestColumn(row[n].box.cx, cols) == c then [row[n].text] else [])
  }

  /** A column holds only texts of items whose nearest column it is. */
  lemma {:induction false} ColumnTextsFrom(row: seq<Item>, cols: seq<real>, c: int)
    ensures forall t :: t in ColumnTexts(row, cols, c) ==>
      exists k :: 0 <= k < |row| && row[k].text == t && NearestColumn(row[k].box.cx, cols) == c
    decreases |row|
  {
    if |row| > 0 {
      var n := |row| - 1;
      ColumnTextsFrom(row[..n], cols, c);
      ColumnTextsLast(row, cols, c);
      forall t | t in ColumnTexts(row, cols, c)
        ensures exists k :: 0 <= k < |row| && row[k].text == t && NearestColumn(row[k].box.cx, cols) == c
      {
        if t in ColumnTexts(row[..n], cols, c) {
          var k :| 0 <= k < n && row[..n][k].text == t && NearestColumn(row[..n][k].box.cx, cols) == c;
          assert row[k] == row[..n][k];
        } else {
          assert row[n].text == t && NearestColumn(row[n].box.cx, cols) == c;
        }
      }
    }
  }

  lemma ColumnTextsLast(row: seq<Item>, cols: seq<real>, c: int)
    requires |row| > 0
    ensures var n := |row| - 1;
      ColumnTexts(row, cols, c)
      == ColumnTexts(row[..n], cols, c) + (if NearestColumn(row[n].box.cx, cols) == c then [row[n].text] else [])
  {
  }

  /** Every item's text reaches the column nearest to its centre. */
  lemma {:induction false} TextPlaced(row: seq<Item>, cols: seq<real>, k: int)
    requires 0 <= k < |row|
    ensures row[k].text in ColumnTexts(row, cols, NearestColumn(row[k].box.cx, cols))
    decreases |row|
  {
    var n := |row| - 1;
    var c := NearestColumn(row[k].box.cx, cols);
    ColumnTextsLast(row, cols, c);
    if k < n {
      assert row[k].text in ColumnTexts(row[..n], cols, c) by {
        assert row[..n][k] == row[k];
        TextPlaced(row[..n], cols, k);
      }
    } else {
      assert NearestColumn(row[n].box.cx, cols) == c;
    }
  }

  /** One grid row: `["" for _ in col_boundaries]` filled item by item. */
  function PlaceRow(row: seq<Item>, cols: seq<real>): (cells: seq<string>)
    ensures |cells| == |cols|
    decreases |row|
  {
    if |row| == 0 then seq(|cols|, _ => "")
    else
      var n := |row| - 1;
      var cells := PlaceRow(row[..n], cols);
      var j := NearestColumn(row[n].box.cx, cols);
      if j == -1 then cells else cells[j := AppendCell(cells[j], row[n].text)]
  }

  /** Placing item by item gives, in each cell, the fill of the texts whose
      nearest column it is. */
  lemma {:induction false} PlaceRowCells(row: seq<Item>, cols: seq<real>)
    ensures forall c :: 0 <= c < |cols| ==> PlaceRow(row, cols)[c] == FillCell(ColumnTexts(row, cols, c))
    decreases |row|
  {
    if |row| > 0 {
      var n := |row| - 1;
      PlaceRowCells(row[..n], cols);
      forall c | 0 <= c < |cols|
        ensures PlaceRow(row, cols)[c] == FillCell(ColumnTexts(row, cols, c))
      {
        var init := ColumnTexts(row[..n], cols, c);
        if NearestColumn(row[n].box.cx, cols) == c {
          assert (init + [row[n].text])[..|init|] == init;
        } else {
          assert init + [] == init;
        }
      }
    }
  }

  /** No cell holds a character that no text holds, other than the space. */
  lemma {:induction false} PlaceRowExcludes(row: seq<Item>, cols: seq<real>, ch: char)
    requires ch != ' '
    requires forall k :: 0 <= k < |row| ==> ch !in row[k].text
    ensures forall c :: 0 <= c < |cols| ==> ch !in PlaceRow(row, cols)[c]
    decreases |row|
  {
    if |row| > 0 {
      PlaceRowExcludes(row[..|row| - 1], cols, ch);
    }
  }

  function BuildGrid(rows: seq<seq<Item>>, cols: seq<real>): seq<seq<string>> {
    seq(|rows|, i requires 0 <= i < |rows| => PlaceRow(rows[i], cols))
  }

  /** `"\n".join("\t".join(row) for row in grid)`. */
  function ToTsv(grid: seq<seq<string>>): string {
    Join(seq(|grid|, i requires 0 <= i < |grid| => Join(grid[i], '\t')), '\n')
  }

  /** Splitting the TSV text at newlines and then at tabs gives the grid back,
      provided no cell holds a tab or a newline. */
  lemma TsvRoundTrip(grid: seq<seq<string>>)
    requires |grid| > 0
    requires forall i :: 0 <= i < |grid| ==> |grid[i]| > 0
    requires forall i, j :: 0 <= i < |grid| && 0 <= j < |grid[i]| ==> '\t' !in grid[i][j] && '\n' !in grid[i][j]
    ensures |Split(ToTsv(grid), '\n')| == |grid|
    ensures forall i :: 0 <= i < |grid| ==> Split(Split(ToTsv(grid), '\n')[i], '\t') == grid[i]
  {
    var lines := seq(|grid|, i requires 0 <= i < |grid| => Join(grid[i], '\t'));
    forall i | 0 <= i < |grid| ensures '\n' !in lines[i] && Split(lines[i], '\t') == grid[i] {
      JoinExcludes(grid[i], '\t', '\n');
      SplitJoin(grid[i], '\t');
    }
    SplitJoin(lines, '\n');
  }

  /** Lines of TSV text that read back as the grid of `rows` against the
      column boundaries `cols`: one line per row, one cell per boundary, and
      in each cell the space-joined texts placed in that column. */
  ghost predicate ReadsAsGrid(lines: seq<string>, rows: seq<seq<Item>>, cols: seq<real>) {
    && |lines| == |rows|
    && forall i :: 0 <= i < |rows| ==>
         && |Split(lines[i], '\t')| == |cols|
         && forall c :: 0 <= c < |cols| ==> Split(lines[i], '\t')[c] == FillCell(ColumnTexts(rows[i], cols, c))
  }

  /** The TSV of a grid built from rows whose texts hold no tab or newline
      reads back line by line and cell by cell as the placed texts. */
  lemma GridRead(rows: seq<seq<Item>>, cols: seq<real>)
    requires |rows| > 0 && |cols| > 0
    requires forall i, k :: 0 <= i < |rows| && 0 <= k < |rows[i]| ==>
      '\t' !in rows[i][k].text && '\n' !in rows[i][k].text
    ensures ReadsAsGrid(Split(ToTsv(BuildGrid(rows, cols)), '\n'), rows, cols)
  {
    var grid := BuildGrid(rows, cols);
    forall i | 0 <= i < |rows|
      ensures forall c :: 0 <= c < |cols| ==> '\t' !in grid[i][c] && '\n' !in grid[i][c]
      ensures forall c :: 0 <= c < |cols| ==> grid[i][c] == FillCell(ColumnTexts(rows[i], cols, c))
    {
      PlaceRowExcludes(rows[i], cols, '\t');
      PlaceRowExcludes(rows[i], cols, '\n');
      PlaceRowCells(rows[i], cols);
    }
    TsvRoundTrip(grid);
  }
}
