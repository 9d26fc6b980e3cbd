/** `reconstruct_text` (the same in src/work_ocr/layout.py and layout.py):
    rows by top edge, fragments in a row ordered by left edge and separated
    by a number of spaces proportional to the gap between them. */
module TextLayout {
  import opened Outcomes
  import opened Sequences
  import opened Strings
  import opened Geometry
  import opened Rows
  import opened Sorting

  const DefaultSpaceWidthRatio: real := 0.5

  /** The one failure: `int(gap / (avg_char_w * space_width_ratio))` with a
      zero divisor raises `ZeroDivisionError`. */
  datatype LayoutError = DivisionByZero

  /** The horizontal gap from `prev`'s right edge to `cur`'s left edge. */
  function Gap(prev: Item, cur: Item): real {
    cur.box.x1 - prev.box.x2
  }

  /** `max(1, int(gap / unit))` spaces for a positive gap, none otherwise. */
  function SpaceCount(gap: real, unit: real): (n: nat)
    requires gap > 0.0 ==> unit != 0.0
    ensures gap > 0.0 <==> n > 0
  {
    if gap > 0.0 then (var k := Trunc(gap / unit); if k < 1 then 1 else k) else 0
  }

  /** For a positive unit, a positive gap gets as many spaces as whole units
      fit into it, and at least one. */
  lemma SpaceCountBounds(gap: real, unit: real)
    requires gap > 0.0 && unit > 0.0
    ensures var n := SpaceCount(gap, unit);
      && n >= 1
      && (n == 1 || n as real <= gap / unit)
      && gap / unit < n as real + 1.0
  {
    var q := gap / unit;
    assert q > 0.0;
  }

  /** Some fragment of the row follows its predecessor with a positive gap. */
  predicate HasPositiveGap(row: seq<Item>) {
    exists k :: 1 <= k < |row| && Gap(row[k - 1], row[k]) > 0.0
  }

  /** The line of one row: the first text, then for each later fragment its
      spaces and its text. */
  function Line(row: seq<Item>, unit: real): (line: string)
    requires |row| > 0
    requires HasPositiveGap(row) ==> unit != 0.0
    decreases |row|
  {
    if |row| == 1 then row[0].text
    else
      var n := |row| - 1;
      PrefixGap(row, n);
      assert Gap(row[n - 1], row[n]) > 0.0 ==> HasPositiveGap(row);
      Line(row[..n], unit) + Spaces(SpaceCount(Gap(row[n - 1], row[n]), unit)) + row[n].text
  }

  lemma PrefixGap(row: seq<Item>, n: int)
    requires 0 < n <= |row|
    ensures HasPositiveGap(row[..n]) ==> HasPositiveGap(row)
  {
    if HasPositiveGap(row[..n]) {
      var k :| 1 <= k < n && Gap(row[..n][k - 1], row[..n][k]) > 0.0;
      assert Gap(row[k - 1], row[k]) > 0.0;
    }
  }

  /** What follows fragment `k` on its line: one space per whole unit of the
      gap to fragment `k + 1` (at least one, none for no gap), then the text
      of fragment `k + 1`. */
  function Piece(row: seq<Item>, unit: real, k: int): string
    requires 0 <= k < |row| - 1
    requires HasPositiveGap(row) ==> unit != 0.0
  {
    assert Gap(row[k], row[k + 1]) > 0.0 ==> HasPositiveGap(row) by {
      assert Gap(row[(k + 1) - 1], row[k + 1]) == Gap(row[k], row[k + 1]);
    }
    Spaces(SpaceCount(Gap(row[k], row[k + 1]), unit)) + row[k + 1].text
  }

  /** The layout of a row stated all at once: the first text, then the piece
      after each fragment, left to right. */
  function Layout(row: seq<Item>, unit: real): string
    requires |row| > 0
    requires HasPositiveGap(row) ==> unit != 0.0
  {
    row[0].text + Flatten(Pieces(row, unit))
  }

  function Pieces(row: seq<Item>, unit: real): seq<string>
    requires |row| > 0
    requires HasPositiveGap(row) ==> unit != 0.0
  {
    seq(|row| - 1, k requires 0 <= k < |row| - 1 => Piece(row, unit, k))
  }

  function RowsOf(items: seq<Item>): seq<seq<Item>>
    requires |items| > 0
  {
    GroupRows(items, Y1, MeanHeight(items) * 0.5, X1)
  }

  function Unit(items: seq<Item>, ratio: real): real {
    CharWidthByLength(items) * ratio
  }

  /** The whole text, or the division error when the unit is zero and some
      row has a positive gap. */
  function ReconstructText(dets: seq<Detection>, ratio: real): (r: Result<string, LayoutError>)
    ensures |dets| == 0 ==> r == Ok("")
    ensures r.Err? <==> (|dets| > 0 && Unit(Items(dets), ratio) == 0.0
                         && exists i :: 0 <= i < |RowsOf(Items(dets))| && HasPositiveGap(RowsOf(Items(dets))[i]))
  {
    if |dets| == 0 then Ok("")
    else
      var items := Items(dets);
      var rows := RowsOf(items);
      var unit := Unit(items, ratio);
      if unit == 0.0 && exists i :: 0 <= i < |rows| && HasPositiveGap(rows[i]) then Err(DivisionByZero)
      else Ok(Join(seq(|rows|, i requires 0 <= i < |rows| => Line(rows[i], unit)), '\n'))
  }

  // ---------------------------------------------------------------------------
  // what the text holds

  /** The line built fragment by fragment is the layout stated all at once:
      the first text with nothing before it, and between each pair of
      neighbours exactly `SpaceCount` of their gap spaces. */
  lemma {:induction false} LineLayout(row: seq<Item>, unit: real)
    requires |row| > 0
    requires HasPositiveGap(row) ==> unit != 0.0
    ensures Line(row, unit) == Layout(row, unit)
    decreases |row|
  {
    if |row| == 1 {
      assert Pieces(row, unit) == [];
    } else {
      var n := |row| - 1;
      PiecesSnoc(row, unit);
      LineLayout(row[..n], unit);
      LineSnoc(row, unit);
      FlattenAppend(Pieces(row[..n], unit), Piece(row, unit, n - 1));
      assert row[..n][0] == row[0];
    }
  }

  lemma LineSnoc(row: seq<Item>, unit: real)
    requires |row| > 1
    requires HasPositiveGap(row) ==> unit != 0.0
    ensures HasPositiveGap(row[..|row| - 1]) ==> unit != 0.0
    ensures Line(row, unit) == Line(row[..|row| - 1], unit) + Piece(row, unit, |row| - 2)
  {
    var n := |row| - 1;
    PrefixGap(row, n);
    var sp := Spaces(SpaceCount(Gap(row[n - 1], row[n]), unit));
    assert Line(row, unit) == Line(row[..n], unit) + sp + row[n].text;
    assert Piece(row, unit, n - 1) == sp + row[n].text;
  }

  /** The pieces of a row are those of all but its last fragment, then the
      piece before the last. */
  lemma PiecesSnoc(row: seq<Item>, unit: real)
    requires |row| > 1
    requires HasPositiveGap(row) ==> unit != 0.0
    ensures HasPositiveGap(row[..|row| - 1]) ==> unit != 0.0
    ensures Pieces(row, unit) == Pieces(row[..|row| - 1], unit) + [Piece(row, unit, |row| - 2)]
  {
    var n := |row| - 1;
    PrefixGap(row, n);
    var ps, qs := Pieces(row, unit), Pieces(row[..n], unit);
    forall k | 0 <= k < n - 1
      ensures ps[k] == qs[k]
    {
      assert row[..n][k] == row[k] && row[..n][k + 1] == row[k + 1];
    }
  }

  /** A line is the row's texts run together with only spaces inserted. */
  lemma {:induction false} LineSpacing(row: seq<Item>, unit: real)
    requires |row| > 0
    requires HasPositiveGap(row) ==> unit != 0.0
    ensures SpacesInserted(Flatten(Texts(row)), Line(row, unit))
    decreases |row|
  {
    if |row| == 1 {
      FlattenSingle(row[0].text);
      assert Texts(row) == [row[0].text];
      SpacesInsertedRefl(row[0].text);
    } else {
      var n := |row| - 1;
      LineSpacing(row[..n], unit);
      SpacedAppend(Flatten(Texts(row[..n])), Line(row[..n], unit), SpaceCount(Gap(row[n - 1], row[n]), unit), row[n].text);
      assert Texts(row) == Texts(row[..n]) + [row[n].text];
      FlattenAppend(Texts(row[..n]), row[n].text);
    }
  }

  /** Appending a run of spaces and then the same text on both sides keeps
      the relation. */
  lemma SpacedAppend(a: string, b: string, n: nat, t: string)
    requires SpacesInserted(a, b)
    ensures SpacesInserted(a + t, b + Spaces(n) + t)
  {
    SpacesInsertedRun(n);
    SpacesInsertedConcat(a, b, "", Spaces(n));
    assert a + "" == a;
    SpacesInsertedRefl(t);
    SpacesInsertedConcat(a, b + Spaces(n), t, t);
  }

  lemma FlattenSingle(t: string)
    ensures Flatten([t]) == t
  {
    assert [t][1..] == [];
  }

  /** A row whose fragments never have a positive gap is its texts run
      together. */
  lemma {:induction false} LineWithoutGaps(row: seq<Item>, unit: real)
    requires |row| > 0 && !HasPositiveGap(row)
    ensures Line(row, unit) == Flatten(Texts(row))
    decreases |row|
  {
    if |row| == 1 {
      FlattenSingle(row[0].text);
      assert Texts(row) == [row[0].text];
    } else {
      var n := |row| - 1;
      assert !HasPositiveGap(row[..n]);
      LineWithoutGaps(row[..n], unit);
      assert !(Gap(row[n - 1], row[n]) > 0.0);
      assert Texts(row) == Texts(row[..n]) + [row[n].text];
      FlattenAppend(Texts(row[..n]), row[n].text);
    }
  }

  lemma {:induction false} LineExcludes(row: seq<Item>, unit: real, ch: char)
    requires |row| > 0 && ch != ' '
    requires HasPositiveGap(row) ==> unit != 0.0
    requires forall k :: 0 <= k < |row| ==> ch !in row[k].text
    ensures ch !in Line(row, unit)
    decreases |row|
  {
    if |row| > 1 {
      LineExcludes(row[..|row| - 1], unit, ch);
    }
  }

  /** Read back at newlines, the text has one line per row. Each row is
      ordered by left edge, and its line is the row's layout: the first text,
      then for each neighbouring pair exactly `SpaceCount` of their gap
      spaces and the next text; so it is also the row's texts in order with
      only spaces inserted. This needs fragment texts free of newlines. */
  lemma TextShape(dets: seq<Detection>, ratio: real)
    requires |dets| > 0 && ReconstructText(dets, ratio).Ok?
    requires forall k :: 0 <= k < |dets| ==> '\n' !in dets[k].text
    ensures var rows := RowsOf(Items(dets));
      var lines := Split(ReconstructText(dets, ratio).value, '\n');
      && 0 < |lines| == |rows| <= |dets|
      && forall i :: 0 <= i < |rows| ==>
        && SortedBy(rows[i], X1)
        && (HasPositiveGap(rows[i]) ==> Unit(Items(dets), ratio) != 0.0)
        && lines[i] == Layout(rows[i], Unit(Items(dets), ratio))
        && SpacesInserted(Flatten(Texts(rows[i])), lines[i])
  {
    var items := Items(dets);
    var rows := RowsOf(items);
    var unit := Unit(items, ratio);
    var lines := seq(|rows|, i requires 0 <= i < |rows| => Line(rows[i], unit));
    forall i | 0 <= i < |rows|
      ensures '\n' !in lines[i] && lines[i] == Layout(rows[i], unit)
      ensures SpacesInserted(Flatten(Texts(rows[i])), lines[i])
    {
      forall k | 0 <= k < |rows[i]| ensures '\n' !in rows[i][k].text {
        RowMember(items, i, rows[i][k]);
      }
      LineExcludes(rows[i], unit, '\n');
      LineSpacing(rows[i], unit);
      LineLayout(rows[i], unit);
    }
    SplitJoin(lines, '\n');
  }

  lemma RowMember(items: seq<Item>, i: int, x: Item)
    requires |items| > 0 && 0 <= i < |RowsOf(items)| && x in RowsOf(items)[i]
    ensures x in items
  {
    FlattenMember(RowsOf(items), i, x);
    assert x in multiset(Flatten(RowsOf(items)));
  }
}
