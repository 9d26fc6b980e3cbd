/** Greedy row clustering, shared by `reconstruct_table` (keyed on the vertical
    centre) and `reconstruct_text` (keyed on the top edge) in both generations
    of the layout code.

    The items are sorted by the row key; a row is grown while the next item's
    key differs from the mean key of the row so far by less than the
    tolerance; otherwise the row is closed and a new one begins with that item.
    Each closed row is then sorted by the column key. */
module Rows {
  import opened Sequences
  import opened Sorting

  /** The `k`-th element is within `tol` of the mean key of the elements
      before it: the condition under which the greedy loop let it join. */
  ghost predicate Joins<T>(row: seq<T>, k: int, key: T -> real, tol: real) {
    1 <= k < |row| && Abs(key(row[k]) - MeanBy(row[..k], key)) < tol
  }

  /** Every element after the first joined its row. */
  ghost predicate Cohesive<T>(row: seq<T>, key: T -> real, tol: real) {
    forall k :: 1 <= k < |row| ==> Joins(row, k, key, tol)
  }

  /** Row `i` starts with an element too far from the mean key of row `i - 1`. */
  ghost predicate Breaks<T>(rows: seq<seq<T>>, i: int, key: T -> real, tol: real) {
    0 < i < |rows| && |rows[i]| > 0 && |rows[i - 1]| > 0
    && Abs(key(rows[i][0]) - MeanBy(rows[i - 1], key)) >= tol
  }

  ghost predicate RowOk<T>(rows: seq<seq<T>>, i: int, key: T -> real, tol: real) {
    0 <= i < |rows| && |rows[i]| > 0 && Cohesive(rows[i], key, tol)
  }

  /** The shape the greedy loop produces: non-empty cohesive rows, and each row
      after the first starts with an element that was too far from the mean of
      the row before it. */
  ghost predicate GreedyRows<T>(rows: seq<seq<T>>, key: T -> real, tol: real) {
    && (forall i :: 0 <= i < |rows| ==> RowOk(rows, i, key, tol))
    && (forall i :: 0 < i < |rows| ==> Breaks(rows, i, key, tol))
  }

  /** The loop `for item in items[1:]` with `current_row` as accumulator. */
  function ClusterFrom<T>(current: seq<T>, rest: seq<T>, key: T -> real, tol: real): seq<seq<T>>
    requires |current| > 0
    decreases |rest|
  {
    if |rest| == 0 then [current]
    else if Abs(key(rest[0]) - MeanBy(current, key)) < tol then
      ClusterFrom(current + [rest[0]], rest[1..], key, tol)
    else
      [current] + ClusterFrom([rest[0]], rest[1..], key, tol)
  }

  lemma {:induction false} ExtendCohesive<T>(current: seq<T>, x: T, key: T -> real, tol: real)
    requires |current| > 0 && Cohesive(current, key, tol)
    requires Abs(key(x) - MeanBy(current, key)) < tol
    ensures Cohesive(current + [x], key, tol)
  {
    var c := current + [x];
    forall k | 1 <= k < |c|
      ensures Joins(c, k, key, tol)
    {
      if k < |current| {
        assert c[..k] == current[..k];
        assert Joins(current, k, key, tol);
      } else {
        assert c[..k] == current;
      }
    }
  }

  /** A cohesive row followed by greedy rows whose first element breaks away
      from it is again greedy. */
  lemma {:induction false} GreedyCons<T>(current: seq<T>, tail: seq<seq<T>>, key: T -> real, tol: real)
    requires |current| > 0 && Cohesive(current, key, tol)
    requires GreedyRows(tail, key, tol) && |tail| > 0 && |tail[0]| > 0
    requires Abs(key(tail[0][0]) - MeanBy(current, key)) >= tol
    ensures GreedyRows([current] + tail, key, tol)
  {
    var rows := [current] + tail;
    forall i | 0 <= i < |rows|
      ensures RowOk(rows, i, key, tol)
    {
      if i > 0 {
        assert rows[i] == tail[i - 1];
        assert RowOk(tail, i - 1, key, tol);
      }
    }
    forall i | 0 < i < |rows|
      ensures Breaks(rows, i, key, tol)
    {
      assert RowOk(tail, i - 1, key, tol);
      if i > 1 {
        assert rows[i] == tail[i - 1] && rows[i - 1] == tail[i - 2];
        assert Breaks(tail, i - 1, key, tol);
      }
    }
  }

  /** Dropping the first row of greedy rows leaves greedy rows. */
  lemma {:induction false} GreedyTail<T>(rows: seq<seq<T>>, key: T -> real, tol: real)
    requires GreedyRows(rows, key, tol) && |rows| > 0
    ensures GreedyRows(rows[1..], key, tol)
  {
    var tail := rows[1..];
    forall i | 0 <= i < |tail|
      ensures RowOk(tail, i, key, tol)
    {
      assert tail[i] == rows[i + 1];
      assert RowOk(rows, i + 1, key, tol);
    }
    forall i | 0 < i < |tail|
      ensures Breaks(tail, i, key, tol)
    {
      assert tail[i] == rows[i + 1] && tail[i - 1] == rows[i];
      assert Breaks(rows, i + 1, key, tol);
    }
  }

  /** What `ClusterFrom` promises: its rows concatenate to the items it was
      given, have the greedy shape, and the first one extends `current`. */
  ghost predicate ClusterOf<T>(rows: seq<seq<T>>, current: seq<T>, rest: seq<T>, key: T -> real, tol: real) {
    && Flatten(rows) == current + rest
    && GreedyRows(rows, key, tol)
    && |rows| > 0 && |rows[0]| >= |current| && rows[0][..|current|] == current
  }

  lemma {:induction false} ClusterFromSound<T>(current: seq<T>, rest: seq<T>, key: T -> real, tol: real)
    requires |current| > 0 && Cohesive(current, key, tol)
    ensures ClusterOf(ClusterFrom(current, rest, key, tol), current, rest, key, tol)
    decreases |rest|
  {
    if |rest| == 0 {
      var rows := [current];
      assert current + rest == current;
      assert Flatten(rows) == current + Flatten(rows[1..]);
      assert RowOk(rows, 0, key, tol);
    } else {
      var x := rest[0];
      assert [x] + rest[1..] == rest;
      if Abs(key(x) - MeanBy(current, key)) < tol {
        var c := current + [x];
        ExtendCohesive(current, x, key, tol);
        ClusterFromSound(c, rest[1..], key, tol);
        var rows := ClusterFrom(c, rest[1..], key, tol);
        assert rows[0][..|current|] == rows[0][..|c|][..|current|];
        assert c + rest[1..] == current + rest;
      } else {
        assert Cohesive([x], key, tol);
        ClusterFromSound([x], rest[1..], key, tol);
        var tail := ClusterFrom([x], rest[1..], key, tol);
        assert tail[0][0] == tail[0][..1][0] == x;
        GreedyCons(current, tail, key, tol);
        var rows := [current] + tail;
        assert rows[1..] == tail;
        assert Flatten(rows) == current + Flatten(tail);
      }
    }
  }

  /** The greedy row clustering of an already sorted item list. */
  function Cluster<T>(items: seq<T>, key: T -> real, tol: real): (rows: seq<seq<T>>)
    ensures Flatten(rows) == items
    ensures GreedyRows(rows, key, tol)
  {
    if |items| == 0 then []
    else
      assert Cohesive([items[0]], key, tol);
      ClusterFromSound([items[0]], items[1..], key, tol);
      assert [items[0]] + items[1..] == items;
      ClusterFrom([items[0]], items[1..], key, tol)
  }

  /** The first row of greedy rows is exactly `current` when nothing follows it. */
  lemma {:induction false} SingleRow<T>(current: seq<T>, rows: seq<seq<T>>, key: T -> real, tol: real)
    requires ClusterOf(rows, current, [], key, tol)
    ensures rows == [current]
  {
    var r0 := rows[0];
    assert Flatten(rows) == r0 + Flatten(rows[1..]);
    assert r0 == current;
    GreedyTail(rows, key, tol);
    FlattenEmpty(rows[1..], key, tol);
  }

  /** Greedy rows are non-empty, so they concatenate to nothing only when
      there are none. */
  lemma FlattenEmpty<T>(rows: seq<seq<T>>, key: T -> real, tol: real)
    requires GreedyRows(rows, key, tol) && Flatten(rows) == []
    ensures rows == []
  {
    forall i | 0 <= i < |rows|
      ensures |rows[i]| > 0
    {
      assert RowOk(rows, i, key, tol);
    }
    FlattenLength(rows);
  }

  lemma {:induction false} ClusterFromUnique<T>(current: seq<T>, rest: seq<T>, rows: seq<seq<T>>, key: T -> real, tol: real)
    requires |current| > 0
    requires ClusterOf(rows, current, rest, key, tol)
    ensures ClusterFrom(current, rest, key, tol) == rows
    decreases |rest|
  {
    var r0 := rows[0];
    assert Flatten(rows) == r0 + Flatten(rows[1..]);
    if |rest| == 0 {
      SingleRow(current, rows, key, tol);
    } else {
      var x := rest[0];
      if |r0| > |current| {
        assert (current + rest)[|current|] == x;
        assert r0[|current|] == x;
        assert r0[..|current|] == current;
        assert RowOk(rows, 0, key, tol);
        assert Joins(r0, |current|, key, tol);
        var c := current + [x];
        assert r0[..|c|] == c;
        assert c + rest[1..] == current + rest;
        ClusterFromUnique(c, rest[1..], rows, key, tol);
      } else {
        FromSecondRow(current, rest, rows, key, tol);
      }
    }
  }

  /** The case of `ClusterFromUnique` where the first row is `current` itself. */
  lemma {:induction false} FromSecondRow<T>(current: seq<T>, rest: seq<T>, rows: seq<seq<T>>, key: T -> real, tol: real)
    requires |current| > 0 && |rest| > 0
    requires ClusterOf(rows, current, rest, key, tol) && |rows[0]| == |current|
    ensures ClusterFrom(current, rest, key, tol) == rows
    decreases |rest|, 0
  {
    var x := rest[0];
    var r0 := rows[0];
    assert r0 == current;
    assert Flatten(rows) == r0 + Flatten(rows[1..]);
    assert (current + rest)[|current|..] == rest;
    assert Flatten(rows[1..]) == rest;
    var tail := rows[1..];
    assert |rows| > 1;
    assert RowOk(rows, 1, key, tol) && Breaks(rows, 1, key, tol);
    assert Flatten(tail) == tail[0] + Flatten(tail[1..]);
    assert tail[0][0] == x;
    GreedyTail(rows, key, tol);
    assert tail[0][..1] == [x];
    assert [x] + rest[1..] == rest;
    ClusterFromUnique([x], rest[1..], tail, key, tol);
    assert rows == [current] + tail;
  }

  /** The greedy shape determines the rows: any partition of the sorted items
      into rows with that shape is the one `Cluster` computes. */
  lemma {:induction false} ClusterUnique<T>(items: seq<T>, rows: seq<seq<T>>, key: T -> real, tol: real)
    ensures rows == Cluster(items, key, tol) <==> (GreedyRows(rows, key, tol) && Flatten(rows) == items)
  {
    if GreedyRows(rows, key, tol) && Flatten(rows) == items {
      if |rows| == 0 {
      } else {
        assert RowOk(rows, 0, key, tol);
        assert Flatten(rows) == rows[0] + Flatten(rows[1..]);
        assert rows[0][..1] == [items[0]];
        assert [items[0]] + items[1..] == items;
        ClusterFromUnique([items[0]], items[1..], rows, key, tol);
      }
    }
  }

  // ---------------------------------------------------------------------------
  // the rows as the layout code sees them

  /** Rows in ascending order of the row key: nothing in an earlier row has a
      larger key than anything in a later row. */
  ghost predicate Ascending<T>(rows: seq<seq<T>>, key: T -> real) {
    forall i, j, a, b :: 0 <= i < j < |rows| && a in rows[i] && b in rows[j] ==> key(a) <= key(b)
  }

  lemma {:induction false} SortedFlattenAscending<T>(rows: seq<seq<T>>, key: T -> real)
    requires SortedBy(Flatten(rows), key)
    ensures Ascending(rows, key)
  {
    if |rows| > 0 {
      var f := Flatten(rows);
      assert f == rows[0] + Flatten(rows[1..]);
      assert SortedBy(Flatten(rows[1..]), key) by {
        forall p, q | 0 <= p < q < |Flatten(rows[1..])|
          ensures key(Flatten(rows[1..])[p]) <= key(Flatten(rows[1..])[q])
        {
          assert Flatten(rows[1..])[p] == f[|rows[0]| + p];
          assert Flatten(rows[1..])[q] == f[|rows[0]| + q];
        }
      }
      SortedFlattenAscending(rows[1..], key);
      forall i, j, a, b | 0 <= i < j < |rows| && a in rows[i] && b in rows[j]
        ensures key(a) <= key(b)
      {
        if i == 0 {
          FlattenMember(rows[1..], j - 1, b);
          var p :| 0 <= p < |rows[0]| && rows[0][p] == a;
          var q :| 0 <= q < |Flatten(rows[1..])| && Flatten(rows[1..])[q] == b;
          assert f[p] == a && f[|rows[0]| + q] == b;
        } else {
          assert rows[i] == rows[1..][i - 1] && rows[j] == rows[1..][j - 1];
        }
      }
    }
  }

  function SortRows<T>(rows: seq<seq<T>>, key: T -> real): (r: seq<seq<T>>)
    ensures |r| == |rows|
    ensures forall i :: 0 <= i < |r| ==> SortedBy(r[i], key) && multiset(r[i]) == multiset(rows[i])
  {
    seq(|rows|, i requires 0 <= i < |rows| => SortBy(rows[i], key))
  }

  lemma {:induction false} SortRowsFlatten<T>(rows: seq<seq<T>>, key: T -> real)
    ensures multiset(Flatten(SortRows(rows, key))) == multiset(Flatten(rows))
  {
    if |rows| > 0 {
      SortRowsFlatten(rows[1..], key);
      assert SortRows(rows, key)[1..] == SortRows(rows[1..], key);
    }
  }

  /** Sorting inside each row keeps the rows in ascending row-key order. */
  lemma {:induction false} SortRowsAscending<T>(rows: seq<seq<T>>, rowKey: T -> real, colKey: T -> real)
    requires Ascending(rows, rowKey)
    ensures Ascending(SortRows(rows, colKey), rowKey)
  {
    var sorted := SortRows(rows, colKey);
    forall i, j, a, b | 0 <= i < j < |sorted| && a in sorted[i] && b in sorted[j]
      ensures rowKey(a) <= rowKey(b)
    {
      assert a in multiset(sorted[i]) && b in multiset(sorted[j]);
      assert a in rows[i] && b in rows[j];
    }
  }

  lemma GreedyNonEmpty<T>(rows: seq<seq<T>>, key: T -> real, tol: real)
    requires GreedyRows(rows, key, tol)
    ensures forall i :: 0 <= i < |rows| ==> |rows[i]| > 0
  {
    forall i | 0 <= i < |rows| ensures |rows[i]| > 0 {
      assert RowOk(rows, i, key, tol);
    }
  }

  /** What clustering a sorted sequence and sorting each cluster keeps. */
  lemma GroupFacts<T>(items: seq<T>, rowKey: T -> real, tol: real, colKey: T -> real)
    ensures var clusters := Cluster(SortBy(items, rowKey), rowKey, tol);
      var rows := SortRows(clusters, colKey);
      && multiset(Flatten(rows)) == multiset(items)
      && (forall i :: 0 <= i < |rows| ==> |rows[i]| > 0)
      && Ascending(rows, rowKey)
      && |rows| <= |items|
  {
    var sorted := SortBy(items, rowKey);
    var clusters := Cluster(sorted, rowKey, tol);
    SortRowsFlatten(clusters, colKey);
    SortedFlattenAscending(clusters, rowKey);
    SortRowsAscending(clusters, rowKey, colKey);
    GreedyNonEmpty(clusters, rowKey, tol);
    FlattenLength(clusters);
  }

  /** The rows of the layout code: items sorted by `rowKey`, clustered greedily
      with tolerance `tol`, each row then sorted by `colKey`. The rows partition
      the items, none is empty, they come out in ascending `rowKey` order and
      each is sorted by `colKey`. */
  function GroupRows<T>(items: seq<T>, rowKey: T -> real, tol: real, colKey: T -> real): (rows: seq<seq<T>>)
    ensures multiset(Flatten(rows)) == multiset(items)
    ensures forall i :: 0 <= i < |rows| ==> |rows[i]| > 0 && SortedBy(rows[i], colKey)
    ensures Ascending(rows, rowKey)
    ensures |rows| <= |items| && (|items| > 0 <==> |rows| > 0)
  {
    GroupFacts(items, rowKey, tol, colKey);
    SortRows(Cluster(SortBy(items, rowKey), rowKey, tol), colKey)
  }
}
