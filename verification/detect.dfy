/** `detect_mode`: a page is taken for a table when at least half of its
    fragments share a column with some other fragment. The function is the
    same in src/work_ocr/layout.py and in layout.py. */
module Detect {
  import opened Sequences
  import opened Geometry

  datatype Mode = Table | Text

  /** Fragments `p` and `q` have horizontal centres closer than `thr`. */
  predicate Close(items: seq<Item>, p: int, q: int, thr: real)
    requires 0 <= p < |items| && 0 <= q < |items|
  {
    Abs(items[p].box.cx - items[q].box.cx) < thr
  }

  /** Fragment `p` is vertically aligned with some other fragment. */
  predicate AlignedAt(items: seq<Item>, p: int, thr: real)
    requires 0 <= p < |items|
  {
    exists q :: 0 <= q < |items| && q != p && Close(items, p, q, thr)
  }

  /** The indices of all aligned fragments. */
  function AlignedIndices(items: seq<Item>, thr: real): set<int> {
    set p | 0 <= p < |items| && AlignedAt(items, p, thr)
  }

  /** The column threshold: the mean per-character width, summed over the
      fragments with text but divided by the number of all fragments, times
      `ratio`. */
  function AlignThreshold(items: seq<Item>, ratio: real): real
    requires |items| > 0
  {
    SumBy(items, CharWidthOf) / |items| as real * ratio
  }

  function DetectMode(dets: seq<Detection>, ratio: real): (m: Mode)
    ensures |dets| < 3 ==> m == Text
    ensures m == Table <==>
      |dets| >= 3 && 2 * |AlignedIndices(Items(dets), AlignThreshold(Items(dets), ratio))| >= |dets|
  {
    if |dets| < 3 then Text
    else
      var items := Items(dets);
      if 2 * |AlignedIndices(items, AlignThreshold(items, ratio))| >= |items| then Table else Text
  }

  // ---------------------------------------------------------------------------
  // the pair loop

  /** The pair `(p, q)`, taken with its smaller index first, comes before
      `(i, j)` in the order the nested loop visits pairs. */
  predicate Before(p: int, q: int, i: int, j: int) {
    var lo := if p < q then p else q;
    var hi := if p < q then q else p;
    lo < i || (lo == i && hi < j)
  }

  /** Fragment `p` has been added to the set once the loop reaches `(i, j)`. */
  ghost predicate Seen(items: seq<Item>, thr: real, p: int, i: int, j: int)
    requires 0 <= p < |items|
  {
    exists q :: 0 <= q < |items| && q != p && Close(items, p, q, thr) && Before(p, q, i, j)
  }

  ghost function SeenSet(items: seq<Item>, thr: real, i: int, j: int): set<int> {
    set p | 0 <= p < |items| && Seen(items, thr, p, i, j)
  }

  lemma SeenStep(items: seq<Item>, thr: real, i: int, j: int, aligned: set<int>)
    requires 0 <= i < j < |items|
    requires aligned == SeenSet(items, thr, i, j)
    ensures (if Close(items, i, j, thr) then aligned + {i, j} else aligned)
         == SeenSet(items, thr, i, j + 1)
  {
    var got := if Close(items, i, j, thr) then aligned + {i, j} else aligned;
    forall p | 0 <= p < |items| && Seen(items, thr, p, i, j + 1)
      ensures p in got
    {
      var q :| 0 <= q < |items| && q != p && Close(items, p, q, thr) && Before(p, q, i, j + 1);
      if !Before(p, q, i, j) {
        assert (p == i && q == j) || (p == j && q == i);
        assert Close(items, i, j, thr);
      } else {
        assert p in aligned;
      }
    }
    forall p | p in got
      ensures 0 <= p < |items| && Seen(items, thr, p, i, j + 1)
    {
      if p in aligned {
        var q :| 0 <= q < |items| && q != p && Close(items, p, q, thr) && Before(p, q, i, j);
        assert Before(p, q, i, j + 1);
      } else if p == i {
        assert Close(items, i, j, thr) && Before(i, j, i, j + 1);
      } else {
        assert p == j && Close(items, i, j, thr);
        assert Close(items, j, i, thr) && Before(j, i, i, j + 1);
      }
    }
  }

  lemma SeenRowDone(items: seq<Item>, thr: real, i: int)
    requires 0 <= i < |items|
    ensures SeenSet(items, thr, i, |items|)
         == SeenSet(items, thr, i + 1, i + 2)
  {
    forall p, q | 0 <= p < |items| && 0 <= q < |items| && q != p
      ensures Before(p, q, i, |items|) == Before(p, q, i + 1, i + 2)
    {
    }
  }

  lemma SeenAll(items: seq<Item>, thr: real)
    ensures SeenSet(items, thr, |items|, |items| + 1) == AlignedIndices(items, thr)
  {
    forall p | 0 <= p < |items|
      ensures Seen(items, thr, p, |items|, |items| + 1) == AlignedAt(items, p, thr)
    {
      if AlignedAt(items, p, thr) {
        var q :| 0 <= q < |items| && q != p && Close(items, p, q, thr);
        assert Before(p, q, |items|, |items| + 1);
      }
    }
  }

  lemma SeenNone(items: seq<Item>, thr: real)
    ensures SeenSet(items, thr, 0, 1) == {}
  {
  }

  /** The nested `for i` / `for j in range(i + 1, n)` loop that fills
      `aligned_indices`; it computes exactly the aligned fragments. */
  method CollectAligned(items: seq<Item>, thr: real) returns (aligned: set<int>)
    ensures aligned == AlignedIndices(items, thr)
  {
    var n := |items|;
    aligned := {};
    SeenNone(items, thr);
    var i := 0;
    while i < n
      invariant 0 <= i <= n
      invariant aligned == SeenSet(items, thr, i, i + 1)
    {
      var j := i + 1;
      while j < n
        invariant i + 1 <= j <= n
        invariant aligned == SeenSet(items, thr, i, j)
      {
        SeenStep(items, thr, i, j, aligned);
        if Abs(items[i].box.cx - items[j].box.cx) < thr {
          aligned := aligned + {i, j};
        }
        j := j + 1;
      }
      SeenRowDone(items, thr, i);
      i := i + 1;
    }
    SeenAll(items, thr);
  }

  // ---------------------------------------------------------------------------
  // what the decision means

  /** `set(range(n))`. */
  function Indices(n: nat): (r: set<int>)
    ensures forall p :: p in r <==> 0 <= p < n
    ensures |r| == n
  {
    if n == 0 then {} else Indices(n - 1) + {n - 1}
  }

  /** Three or more fragments stacked on one vertical line (equal centres) are
      a table whenever the threshold is positive. */
  lemma OneColumnIsTable(dets: seq<Detection>, ratio: real)
    requires |dets| >= 3
    requires AlignThreshold(Items(dets), ratio) > 0.0
    requires forall k :: 0 <= k < |dets| ==> Items(dets)[k].box.cx == Items(dets)[0].box.cx
    ensures DetectMode(dets, ratio) == Table
  {
    var items := Items(dets);
    var thr := AlignThreshold(items, ratio);
    forall p | 0 <= p < |items| ensures AlignedAt(items, p, thr) {
      var q := if p == 0 then 1 else 0;
      assert Close(items, p, q, thr);
    }
    assert AlignedIndices(items, thr) == Indices(|items|);
  }

  /** Fragments whose centres are pairwise at least the threshold apart are
      text. */
  lemma ScatteredIsText(dets: seq<Detection>, ratio: real)
    requires |dets| > 0
    requires forall p, q :: 0 <= p < q < |dets| ==>
      Abs(Items(dets)[p].box.cx - Items(dets)[q].box.cx) >= AlignThreshold(Items(dets), ratio)
    ensures DetectMode(dets, ratio) == Text
  {
    var items := Items(dets);
    var thr := AlignThreshold(items, ratio);
    forall p | 0 <= p < |items| ensures !AlignedAt(items, p, thr) {
      forall q | 0 <= q < |items| && q != p ensures !Close(items, p, q, thr) {
        if p < q {
          assert Abs(items[p].box.cx - items[q].box.cx) >= thr;
        } else {
          assert Abs(items[q].box.cx - items[p].box.cx) >= thr;
        }
      }
    }
    assert AlignedIndices(items, thr) == {};
  }
}
