/** Horizontal merging within a row (`reconstruct_table`, step 1.5, in
    src/work_ocr/layout.py): a fragment whose left edge is within the merge
    threshold of the right edge of the fragment before it is folded into
    that fragment. */
module Merge {
  import opened Sequences
  import opened Strings
  import opened Geometry

  /** `gap < t and gap > -t` for the gap between `prev`'s right edge and
      `cur`'s left edge. */
  predicate Touches(prev: Item, cur: Item, t: real) {
    var gap := cur.box.x1 - prev.box.x2;
    gap < t && gap > -t
  }

  /** `prev` extended by `cur`: the texts joined by a space, the right edge
      the larger of the two, width and horizontal centre recomputed; the left
      edge and the vertical extent stay `prev`'s. */
  function MergeInto(prev: Item, cur: Item): (m: Item)
    ensures m.text == prev.text + " " + cur.text
    ensures m.box.x1 == prev.box.x1 && m.box.x2 >= prev.box.x2 && m.box.x2 >= cur.box.x2
    ensures m.box.x2 == prev.box.x2 || m.box.x2 == cur.box.x2
    ensures m.box.y1 == prev.box.y1 && m.box.y2 == prev.box.y2 && m.box.cy == prev.box.cy && m.box.h == prev.box.h
    ensures WellFormed(prev.box) ==> WellFormed(m.box)
  {
    var x2 := if prev.box.x2 >= cur.box.x2 then prev.box.x2 else cur.box.x2;
    var w := x2 - prev.box.x1;
    Item(prev.text + " " + cur.text, prev.box.(x2 := x2, w := w, cx := prev.box.x1 + w / 2.0))
  }

  function Last<T>(s: seq<T>): T
    requires |s| > 0
  {
    s[|s| - 1]
  }

  /** The loop over `row[1:]` with `current_merged_row` as accumulator; each
      fragment is compared with the last, possibly already merged, item. */
  function MergeFrom(acc: seq<Item>, rest: seq<Item>, t: real): seq<Item>
    requires |acc| > 0
    decreases |rest|
  {
    if |rest| == 0 then acc
    else if Touches(Last(acc), rest[0], t) then
      MergeFrom(acc[..|acc| - 1] + [MergeInto(Last(acc), rest[0])], rest[1..], t)
    else
      MergeFrom(acc + [rest[0]], rest[1..], t)
  }

  function MergeRow(row: seq<Item>, t: real): seq<Item> {
    if |row| == 0 then [] else MergeFrom([row[0]], row[1..], t)
  }

  // ---------------------------------------------------------------------------
  // what merging keeps

  lemma {:induction false} JoinMergeLast(texts: seq<string>, a: string, b: string)
    ensures Join(texts + [a + " " + b], ' ') == Join(texts + [a] + [b], ' ')
  {
    if |texts| == 0 {
      assert texts + [a + " " + b] == [a + " " + b];
      assert texts + [a] + [b] == [a, b];
    } else {
      JoinAppendLast(texts, a + " " + b, ' ');
      JoinAppendLast(texts, a, ' ');
      JoinAppendLast(texts + [a], b, ' ');
    }
  }

  /** Folding `x` into the last item keeps the space-joined texts. */
  lemma TouchStep(acc: seq<Item>, x: Item, tail: seq<string>)
    requires |acc| > 0
    ensures Join(Texts(acc[..|acc| - 1] + [MergeInto(Last(acc), x)]) + tail, ' ')
         == Join(Texts(acc) + ([x.text] + tail), ' ')
  {
    var init := acc[..|acc| - 1];
    var a, b := Last(acc).text, x.text;
    assert acc == init + [Last(acc)];
    TextsAppend(init, MergeInto(Last(acc), x));
    TextsAppend(init, Last(acc));
    JoinMergeMiddle(Texts(init), a, b, tail);
    assert Texts(acc) + ([b] + tail) == Texts(init) + [a] + [b] + tail;
  }

  lemma KeepStep(acc: seq<Item>, x: Item, tail: seq<string>)
    ensures Texts(acc + [x]) + tail == Texts(acc) + ([x.text] + tail)
  {
    TextsAppend(acc, x);
  }

  lemma {:induction false} MergeFromText(acc: seq<Item>, rest: seq<Item>, t: real)
    requires |acc| > 0
    ensures Join(Texts(MergeFrom(acc, rest, t)), ' ') == Join(Texts(acc) + Texts(rest), ' ')
    decreases |rest|
  {
    if |rest| > 0 {
      var x := rest[0];
      var tail := Texts(rest[1..]);
      assert Texts(rest) == [x.text] + tail;
      if Touches(Last(acc), x, t) {
        MergeFromText(acc[..|acc| - 1] + [MergeInto(Last(acc), x)], rest[1..], t);
        TouchStep(acc, x, tail);
      } else {
        MergeFromText(acc + [x], rest[1..], t);
        KeepStep(acc, x, tail);
      }
    } else {
      assert Texts(acc) + Texts(rest) == Texts(acc);
    }
  }

  lemma TextsAppend(items: seq<Item>, x: Item)
    ensures Texts(items + [x]) == Texts(items) + [x.text]
  {
  }

  lemma {:induction false} JoinConcat(a: seq<string>, b: seq<string>, sep: char)
    requires |a| > 0 && |b| > 0
    ensures Join(a + b, sep) == Join(a, sep) + [sep] + Join(b, sep)
    decreases |a|
  {
    if |a| == 1 {
      assert (a + b)[1..] == b;
    } else {
      assert (a + b)[1..] == a[1..] + b;
      JoinConcat(a[1..], b, sep);
    }
  }

  lemma JoinMergeMiddle(init: seq<string>, a: string, b: string, tail: seq<string>)
    ensures Join(init + [a + " " + b] + tail, ' ') == Join(init + [a] + [b] + tail, ' ')
  {
    JoinMergeLast(init, a, b);
    if |tail| > 0 {
      JoinConcat(init + [a + " " + b], tail, ' ');
      JoinConcat(init + [a] + [b], tail, ' ');
    } else {
      assert init + [a + " " + b] + tail == init + [a + " " + b];
      assert init + [a] + [b] + tail == init + [a] + [b];
    }
  }

  /** Merging loses no word: the merged row's texts, joined by spaces, are
      the original row's texts joined by spaces. */
  lemma MergeRowText(row: seq<Item>, t: real)
    ensures Join(Texts(MergeRow(row, t)), ' ') == Join(Texts(row), ' ')
  {
    if |row| > 0 {
      MergeFromText([row[0]], row[1..], t);
      assert Texts(row) == Texts([row[0]]) + Texts(row[1..]);
    }
  }

  /** No fragment of the row touches the one before it. */
  predicate NoTouches(row: seq<Item>, t: real) {
    forall k :: 1 <= k < |row| ==> !Touches(row[k - 1], row[k], t)
  }

  lemma NoTouchesCons(row: seq<Item>, t: real)
    requires |row| >= 2
    ensures NoTouches(row, t) <==> !Touches(row[0], row[1], t) && NoTouches(row[1..], t)
  {
    if !Touches(row[0], row[1], t) && NoTouches(row[1..], t) {
      forall k | 1 <= k < |row| ensures !Touches(row[k - 1], row[k], t) {
        if k > 1 {
          assert row[k - 1] == row[1..][k - 2] && row[k] == row[1..][k - 1];
        }
      }
    }
    if NoTouches(row, t) {
      forall k | 1 <= k < |row[1..]| ensures !Touches(row[1..][k - 1], row[1..][k], t) {
        assert row[1..][k - 1] == row[k] && row[1..][k] == row[k + 1];
      }
    }
  }

  lemma {:induction false} MergeFromLength(acc: seq<Item>, rest: seq<Item>, t: real)
    requires |acc| > 0
    ensures |acc| <= |MergeFrom(acc, rest, t)| <= |acc| + |rest|
    decreases |rest|
  {
    if |rest| > 0 {
      if Touches(Last(acc), rest[0], t) {
        MergeFromLength(acc[..|acc| - 1] + [MergeInto(Last(acc), rest[0])], rest[1..], t);
      } else {
        MergeFromLength(acc + [rest[0]], rest[1..], t);
      }
    }
  }

  lemma {:induction false} MergeFromIdentity(acc: seq<Item>, rest: seq<Item>, t: real)
    requires |acc| > 0
    ensures MergeFrom(acc, rest, t) == acc + rest <==> NoTouches([Last(acc)] + rest, t)
    decreases |rest|
  {
    if |rest| == 0 {
      assert acc + rest == acc;
    } else {
      var x := rest[0];
      var c := [Last(acc)] + rest;
      NoTouchesCons(c, t);
      assert c[1..] == rest && c[0] == Last(acc) && c[1] == x;
      if Touches(Last(acc), x, t) {
        var acc' := acc[..|acc| - 1] + [MergeInto(Last(acc), x)];
        MergeFromLength(acc', rest[1..], t);
      } else {
        MergeFromIdentity(acc + [x], rest[1..], t);
        assert (acc + [x]) + rest[1..] == acc + rest;
        assert [Last(acc + [x])] + rest[1..] == rest;
      }
    }
  }

  /** Merging changes a row exactly when some fragment touches the one
      before it. */
  lemma MergeRowIdentity(row: seq<Item>, t: real)
    ensures MergeRow(row, t) == row <==> NoTouches(row, t)
  {
    if |row| > 0 {
      MergeFromIdentity([row[0]], row[1..], t);
      assert [row[0]] + row[1..] == row;
    }
  }

  lemma {:induction false} MergeFromKeeps(acc: seq<Item>, rest: seq<Item>, t: real)
    requires |acc| > 0
    requires forall i :: 0 <= i < |acc| ==> WellFormed(acc[i].box)
    requires forall i :: 0 <= i < |rest| ==> WellFormed(rest[i].box)
    ensures var r := MergeFrom(acc, rest, t);
      && |r| > 0 && r[0].box.x1 == acc[0].box.x1
      && forall i :: 0 <= i < |r| ==> WellFormed(r[i].box)
    decreases |rest|
  {
    if |rest| > 0 {
      if Touches(Last(acc), rest[0], t) {
        var acc' := acc[..|acc| - 1] + [MergeInto(Last(acc), rest[0])];
        MergeFromKeeps(acc', rest[1..], t);
      } else {
        MergeFromKeeps(acc + [rest[0]], rest[1..], t);
      }
    }
  }

  /** A merged row is no longer than the row, is empty only when the row is,
      starts at the row's left edge, and keeps every box consistent. */
  lemma MergeRowShape(row: seq<Item>, t: real)
    requires forall i :: 0 <= i < |row| ==> WellFormed(row[i].box)
    ensures |MergeRow(row, t)| <= |row|
    ensures |row| > 0 ==> |MergeRow(row, t)| > 0 && MergeRow(row, t)[0].box.x1 == row[0].box.x1
    ensures forall i :: 0 <= i < |MergeRow(row, t)| ==> WellFormed(MergeRow(row, t)[i].box)
  {
    if |row| > 0 {
      MergeFromLength([row[0]], row[1..], t);
      MergeFromKeeps([row[0]], row[1..], t);
    }
  }

  lemma {:induction false} MergeFromExcludes(acc: seq<Item>, rest: seq<Item>, t: real, ch: char)
    requires |acc| > 0 && ch != ' '
    requires forall i :: 0 <= i < |acc| ==> ch !in acc[i].text
    requires forall i :: 0 <= i < |rest| ==> ch !in rest[i].text
    ensures forall i :: 0 <= i < |MergeFrom(acc, rest, t)| ==> ch !in MergeFrom(acc, rest, t)[i].text
    decreases |rest|
  {
    if |rest| > 0 {
      if Touches(Last(acc), rest[0], t) {
        MergeFromExcludes(acc[..|acc| - 1] + [MergeInto(Last(acc), rest[0])], rest[1..], t, ch);
      } else {
        MergeFromExcludes(acc + [rest[0]], rest[1..], t, ch);
      }
    }
  }

  /** Merging adds only spaces to the texts. */
  lemma MergeRowExcludes(row: seq<Item>, t: real, ch: char)
    requires ch != ' '
    requires forall i :: 0 <= i < |row| ==> ch !in row[i].text
    ensures forall i :: 0 <= i < |MergeRow(row, t)| ==> ch !in MergeRow(row, t)[i].text
  {
    if |row| > 0 {
      MergeFromExcludes([row[0]], row[1..], t, ch);
    }
  }
}
