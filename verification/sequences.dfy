/** Sums, means and concatenation over sequences, and the numeric helpers
    the layout code leans on. */
module Sequences {

  function Abs(x: real): (r: real)
    ensures r >= 0.0 && (r == x || r == -x)
  {
    if x < 0.0 then -x else x
  }

  /** Python's `int(x)` on a float: truncation toward zero. */
  function Trunc(x: real): (n: int)
    ensures x >= 0.0 ==> n as real <= x < n as real + 1.0
    ensures x < 0.0 ==> n as real - 1.0 < x <= n as real
  {
    if x >= 0.0 then x.Floor else -((-x).Floor)
  }

  /** Python's `sum(f(x) for x in s)`, accumulated left to right. */
  function SumBy<T>(s: seq<T>, f: T -> real): real {
    if |s| == 0 then 0.0 else SumBy(s[..|s| - 1], f) + f(s[|s| - 1])
  }

  function MeanBy<T>(s: seq<T>, f: T -> real): real
    requires |s| > 0
  {
    SumBy(s, f) / |s| as real
  }

  lemma SumByAppend<T>(s: seq<T>, x: T, f: T -> real)
    ensures SumBy(s + [x], f) == SumBy(s, f) + f(x)
  {
    assert (s + [x])[..|s|] == s;
  }

  /** Concatenation of a sequence of sequences (`[x for row in rows for x in row]`). */
  function Flatten<T>(rows: seq<seq<T>>): seq<T> {
    if |rows| == 0 then [] else rows[0] + Flatten(rows[1..])
  }

  lemma {:induction false} FlattenMember<T>(rows: seq<seq<T>>, i: int, x: T)
    requires 0 <= i < |rows| && x in rows[i]
    ensures x in Flatten(rows)
  {
    if i > 0 {
      FlattenMember(rows[1..], i - 1, x);
    }
  }

  lemma {:induction false} FlattenLength<T>(rows: seq<seq<T>>)
    requires forall i :: 0 <= i < |rows| ==> |rows[i]| > 0
    ensures |rows| <= |Flatten(rows)|
  {
    if |rows| > 0 {
      FlattenLength(rows[1..]);
    }
  }

  lemma {:induction false} FlattenAppend<T>(rows: seq<seq<T>>, last: seq<T>)
    ensures Flatten(rows + [last]) == Flatten(rows) + last
  {
    if |rows| == 0 {
      assert rows + [last] == [last];
    } else {
      assert (rows + [last])[1..] == rows[1..] + [last];
      FlattenAppend(rows[1..], last);
    }
  }

  /** `[f(x) for x in xs]`. */
  function MapSeq<T, U>(f: T -> U, xs: seq<T>): (r: seq<U>)
    ensures |r| == |xs|
    ensures forall i :: 0 <= i < |xs| ==> r[i] == f(xs[i])
  {
    if |xs| == 0 then [] else [f(xs[0])] + MapSeq(f, xs[1..])
  }

  lemma {:induction false} MapConcat<T, U>(f: T -> U, x: seq<T>, y: seq<T>)
    ensures MapSeq(f, x + y) == MapSeq(f, x) + MapSeq(f, y)
    decreases |x|
  {
    if |x| > 0 {
      assert (x + y)[1..] == x[1..] + y;
      MapConcat(f, x[1..], y);
    } else {
      assert x + y == y;
    }
  }

  lemma MultisetSplit<T>(pre: seq<T>, x: T, post: seq<T>)
    ensures multiset(pre + [x] + post) == multiset(pre + post) + multiset{x}
  {
  }

  lemma MultisetCancel<T>(x: multiset<T>, y: multiset<T>, e: T)
    requires x + multiset{e} == y + multiset{e}
    ensures x == y
  {
    assert x == (x + multiset{e}) - multiset{e};
    assert y == (y + multiset{e}) - multiset{e};
  }

  lemma MapMultisetSplit<T, U>(f: T -> U, pre: seq<T>, x: T, post: seq<T>)
    ensures multiset(MapSeq(f, pre + [x] + post)) == multiset(MapSeq(f, pre + post)) + multiset{f(x)}
  {
    MapConcat(f, pre + [x], post);
    MapConcat(f, pre, [x]);
    MapConcat(f, pre, post);
    assert MapSeq(f, [x]) == [f(x)];
  }

  /** Mapping a permutation gives a permutation. */
  lemma {:induction false} MapPermutation<T, U>(f: T -> U, a: seq<T>, b: seq<T>)
    requires multiset(a) == multiset(b)
    ensures multiset(MapSeq(f, a)) == multiset(MapSeq(f, b))
    decreases |a|
  {
    assert |a| == |multiset(a)| == |multiset(b)| == |b|;
    if |a| > 0 {
      assert a[0] in multiset(b);
      var j :| 0 <= j < |b| && b[j] == a[0];
      var pre, post := b[..j], b[j + 1..];
      assert b == pre + [b[j]] + post;
      assert a == [] + [a[0]] + a[1..];
      MultisetSplit(pre, b[j], post);
      MultisetSplit([], a[0], a[1..]);
      assert [] + a[1..] == a[1..];
      MultisetCancel(multiset(a[1..]), multiset(pre + post), a[0]);
      MapPermutation(f, a[1..], pre + post);
      MapMultisetSplit(f, pre, b[j], post);
      MapMultisetSplit(f, [], a[0], a[1..]);
    }
  }
}
