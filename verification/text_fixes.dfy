/** The text clean-up of src/work_ocr/layout.py: `post_process_text` (a space
    after Markdown heading marks and after `:`, `,` and `;`),
    `_add_list_markers_by_indent` and `reconstruct_text_with_postprocess`. */
module TextFixes {
  import opened Outcomes
  import opened Sequences
  import opened Strings
  import opened Geometry
  import opened TextLayout

  // ---------------------------------------------------------------------------
  // post_process_text

  /** A substitution fires at position `i`: the mark followed by a character
      that is neither whitespace nor excluded. */
  predicate FiresAt(s: string, i: int, mark: char, excluded: set<char>) {
    0 <= i < |s| - 1 && s[i] == mark && !IsSpace(s[i + 1]) && s[i + 1] !in excluded
  }

  /** One `re.sub(r'(m)([^\s...])', r'\1 \2', s)` pass, scanning left to
      right: where the pattern matches, a space goes between the mark and the
      next character and scanning resumes after that character. The heading
      rule `(#{1,6})([^\s#])` is this pass for `#` with `#` excluded: in a run
      of `#` only the last one can match, so the run's length does not
      matter. */
  function SpaceAfter(s: string, mark: char, excluded: set<char>): string
    decreases |s|
  {
    if |s| == 0 then ""
    else if FiresAt(s, 0, mark, excluded) then [s[0], ' ', s[1]] + SpaceAfter(s[2..], mark, excluded)
    else [s[0]] + SpaceAfter(s[1..], mark, excluded)
  }

  lemma {:induction false} SpacesInsertedTrans(a: string, b: string, c: string)
    requires SpacesInserted(a, b) && SpacesInserted(b, c)
    ensures SpacesInserted(a, c)
    decreases |c|
  {
    if |c| > 0 {
      if |b| > 0 && b[0] == c[0] && SpacesInserted(b[1..], c[1..]) {
        if |a| > 0 && a[0] == b[0] && SpacesInserted(a[1..], b[1..]) {
          SpacesInsertedTrans(a[1..], b[1..], c[1..]);
        } else {
          SpacesInsertedTrans(a, b[1..], c[1..]);
        }
      } else {
        SpacesInsertedTrans(a, b, c[1..]);
      }
    }
  }

  /** A pass only inserts spaces. */
  lemma {:induction false} SpaceAfterInserts(s: string, mark: char, excluded: set<char>)
    ensures SpacesInserted(s, SpaceAfter(s, mark, excluded))
    decreases |s|
  {
    if |s| > 0 {
      if FiresAt(s, 0, mark, excluded) {
        var rest := SpaceAfter(s[2..], mark, excluded);
        SpaceAfterInserts(s[2..], mark, excluded);
        var t := [s[0], ' ', s[1]] + rest;
        assert t[1..][1..][1..] == rest && s[1..][1..] == s[2..];
        assert SpacesInserted(s[1..], t[1..][1..]);
        assert SpacesInserted(s[1..], t[1..]);
      } else {
        SpaceAfterInserts(s[1..], mark, excluded);
        assert ([s[0]] + SpaceAfter(s[1..], mark, excluded))[1..] == SpaceAfter(s[1..], mark, excluded);
      }
    }
  }

  lemma {:induction false} SpaceAfterLonger(s: string, mark: char, excluded: set<char>)
    ensures |SpaceAfter(s, mark, excluded)| >= |s|
    ensures (exists i :: FiresAt(s, i, mark, excluded)) ==> |SpaceAfter(s, mark, excluded)| > |s|
    decreases |s|
  {
    if |s| > 0 {
      if FiresAt(s, 0, mark, excluded) {
        SpaceAfterLonger(s[2..], mark, excluded);
      } else {
        SpaceAfterLonger(s[1..], mark, excluded);
        if exists i :: FiresAt(s, i, mark, excluded) {
          var i :| FiresAt(s, i, mark, excluded);
          assert FiresAt(s[1..], i - 1, mark, excluded);
        }
      }
    }
  }

  lemma {:induction false} SpaceAfterClean(s: string, mark: char, excluded: set<char>)
    requires forall i :: !FiresAt(s, i, mark, excluded)
    ensures SpaceAfter(s, mark, excluded) == s
    decreases |s|
  {
    if |s| > 0 {
      assert !FiresAt(s, 0, mark, excluded);
      forall i ensures !FiresAt(s[1..], i, mark, excluded) {
        assert !FiresAt(s, i + 1, mark, excluded);
      }
      SpaceAfterClean(s[1..], mark, excluded);
    }
  }

  /** A pass leaves a text alone exactly when its pattern matches nowhere. */
  lemma SpaceAfterFixpoint(s: string, mark: char, excluded: set<char>)
    ensures SpaceAfter(s, mark, excluded) == s <==> forall i :: !FiresAt(s, i, mark, excluded)
  {
    SpaceAfterLonger(s, mark, excluded);
    if forall i :: !FiresAt(s, i, mark, excluded) {
      SpaceAfterClean(s, mark, excluded);
    }
  }

  /** A text without the mark passes through unchanged. */
  lemma {:induction false} SpaceAfterWithoutMark(s: string, mark: char, excluded: set<char>)
    requires mark !in s
    ensures SpaceAfter(s, mark, excluded) == s
    decreases |s|
  {
    if |s| > 0 {
      assert s[0] != mark;
      SpaceAfterWithoutMark(s[1..], mark, excluded);
    }
  }

  /** A pass over a concatenation works piecewise when no match straddles
      the seam. */
  lemma {:induction false} SpaceAfterConcat(a: string, b: string, mark: char, excluded: set<char>)
    requires !FiresAt(a + b, |a| - 1, mark, excluded)
    ensures SpaceAfter(a + b, mark, excluded) == SpaceAfter(a, mark, excluded) + SpaceAfter(b, mark, excluded)
    decreases |a|
  {
    if |a| > 0 {
      var s := a + b;
      if FiresAt(s, 0, mark, excluded) {
        assert |a| >= 2;
        assert FiresAt(a, 0, mark, excluded);
        assert s[2..] == a[2..] + b;
        assert !FiresAt(a[2..] + b, |a[2..]| - 1, mark, excluded) by {
          assert |a| > 2 ==> (a[2..] + b)[|a[2..]| - 1] == s[|a| - 1];
        }
        SpaceAfterConcat(a[2..], b, mark, excluded);
      } else {
        assert !FiresAt(a, 0, mark, excluded);
        assert s[1..] == a[1..] + b;
        assert !FiresAt(a[1..] + b, |a[1..]| - 1, mark, excluded) by {
          if |a| > 1 {
            assert (a[1..] + b)[|a[1..]| - 1] == s[|a| - 1];
            assert |a[1..] + b| - 1 == |s| - 2;
          }
        }
        SpaceAfterConcat(a[1..], b, mark, excluded);
      }
    } else {
      assert a + b == b;
    }
  }

  lemma CleanWithoutLast(u: string, mark: char, excluded: set<char>)
    requires forall i :: !FiresAt(u + [mark], i, mark, excluded)
    ensures forall i :: !FiresAt(u, i, mark, excluded)
  {
    forall i ensures !FiresAt(u, i, mark, excluded) {
      assert !FiresAt(u + [mark], i, mark, excluded);
      if 0 <= i < |u| - 1 {
        assert (u + [mark])[i] == u[i] && (u + [mark])[i + 1] == u[i + 1];
      }
    }
  }

  lemma CleanTail(v: string, mark: char, excluded: set<char>)
    requires |v| > 0 && forall i :: !FiresAt(v, i, mark, excluded)
    ensures forall i :: !FiresAt(v[1..], i, mark, excluded)
  {
    forall i ensures !FiresAt(v[1..], i, mark, excluded) {
      assert !FiresAt(v, i + 1, mark, excluded);
    }
  }

  /** A leading match followed by a clean text. */
  lemma SpaceAfterLeading(mark: char, v: string, excluded: set<char>)
    requires forall i :: !FiresAt(v, i, mark, excluded)
    requires |v| > 0 && !IsSpace(v[0]) && v[0] !in excluded
    ensures SpaceAfter([mark] + v, mark, excluded) == [mark, ' '] + v
  {
    var b := [mark] + v;
    assert FiresAt(b, 0, mark, excluded);
    assert b[2..] == v[1..];
    CleanTail(v, mark, excluded);
    SpaceAfterClean(v[1..], mark, excluded);
    assert [mark, ' ', v[0]] + v[1..] == [mark, ' '] + v;
  }

  /** A text with exactly one match gets exactly one space, right after the
      mark. */
  lemma SpaceAfterOnce(u: string, mark: char, v: string, excluded: set<char>)
    requires forall i :: !FiresAt(u + [mark], i, mark, excluded)
    requires forall i :: !FiresAt(v, i, mark, excluded)
    requires |v| > 0 && !IsSpace(v[0]) && v[0] !in excluded
    ensures SpaceAfter(u + [mark] + v, mark, excluded) == u + [mark, ' '] + v
  {
    var b := [mark] + v;
    assert u + [mark] + v == u + b;
    assert !FiresAt(u + b, |u| - 1, mark, excluded) by {
      assert !FiresAt(u + [mark], |u| - 1, mark, excluded);
      if |u| > 0 {
        assert (u + b)[|u| - 1] == (u + [mark])[|u| - 1];
        assert (u + b)[|u|] == (u + [mark])[|u|];
      }
    }
    SpaceAfterConcat(u, b, mark, excluded);
    CleanWithoutLast(u, mark, excluded);
    SpaceAfterClean(u, mark, excluded);
    SpaceAfterLeading(mark, v, excluded);
    assert u + ([mark, ' '] + v) == u + [mark, ' '] + v;
  }

  const HeadingExcluded: set<char> := {'#'}
  const ColonExcluded: set<char> := {'/'}
  const NoneExcluded: set<char> := {}

  /** The four substitutions, in the source's order. */
  function PostProcessText(text: string): string {
    var headings := SpaceAfter(text, '#', HeadingExcluded);
    var colons := SpaceAfter(headings, ':', ColonExcluded);
    var commas := SpaceAfter(colons, ',', NoneExcluded);
    SpaceAfter(commas, ';', NoneExcluded)
  }

  /** Post-processing only inserts spaces, so every other character, the
      newline included, keeps its count. */
  lemma PostProcessInsertsSpaces(text: string)
    ensures SpacesInserted(text, PostProcessText(text))
    ensures Count(PostProcessText(text), '\n') == Count(text, '\n')
  {
    var headings := SpaceAfter(text, '#', HeadingExcluded);
    var colons := SpaceAfter(headings, ':', ColonExcluded);
    var commas := SpaceAfter(colons, ',', NoneExcluded);
    SpaceAfterInserts(text, '#', HeadingExcluded);
    SpaceAfterInserts(headings, ':', ColonExcluded);
    SpaceAfterInserts(colons, ',', NoneExcluded);
    SpaceAfterInserts(commas, ';', NoneExcluded);
    SpacesInsertedTrans(text, headings, colons);
    SpacesInsertedTrans(text, colons, commas);
    SpacesInsertedTrans(text, commas, PostProcessText(text));
    SpacesInsertedCount(text, PostProcessText(text), '\n');
  }

  /** A text in which every `#`, `:`, `,` and `;` is already followed by
      whitespace (or by `#`, respectively `/`, or nothing) is left alone. */
  lemma PostProcessClean(text: string)
    requires forall i :: !FiresAt(text, i, '#', HeadingExcluded)
    requires forall i :: !FiresAt(text, i, ':', ColonExcluded)
    requires forall i :: !FiresAt(text, i, ',', NoneExcluded)
    requires forall i :: !FiresAt(text, i, ';', NoneExcluded)
    ensures PostProcessText(text) == text
  {
    SpaceAfterClean(text, '#', HeadingExcluded);
    SpaceAfterClean(text, ':', ColonExcluded);
    SpaceAfterClean(text, ',', NoneExcluded);
    SpaceAfterClean(text, ';', NoneExcluded);
  }

  // ---------------------------------------------------------------------------
  // _add_list_markers_by_indent

  /** `stripped.startswith('#') or re.match(r'^[-*+\d]', stripped)`. */
  predicate StartsMarked(st: string) {
    |st| > 0 && (st[0] == '#' || st[0] == '-' || st[0] == '*' || st[0] == '+' || IsDigit(st[0]))
  }

  /** `next((it for it in items if stripped in it['text']), None)`. */
  function FirstContaining(items: seq<Item>, st: string): (r: Option<Item>)
    ensures r.Some? ==> r.value in items && Contains(r.value.text, st)
    ensures r.None? <==> forall k :: 0 <= k < |items| ==> !Contains(items[k].text, st)
    ensures r.Some? ==> exists k :: (0 <= k < |items| && items[k] == r.value
                                     && forall m :: 0 <= m < k ==> !Contains(items[m].text, st))
  {
    if |items| == 0 then None
    else if Contains(items[0].text, st) then Some(items[0])
    else
      var r := FirstContaining(items[1..], st);
      if r.Some? then
        var k :| (0 <= k < |items[1..]| && items[1..][k] == r.value
                  && forall m :: 0 <= m < k ==> !Contains(items[1..][m].text, st));
        assert items[k + 1] == r.value;
        r
      else r
  }

  /** The matching fragment starts more than `thr` right of the leftmost one. */
  predicate Indented(st: string, items: seq<Item>, minX1: real, thr: real) {
    var m := FirstContaining(items, st);
    m.Some? && m.value.box.x1 > minX1 + thr
  }

  /** The line gets a `- ` marker: it has content, no marker of its own, an
      indented matching fragment, and some content came before it. */
  predicate ShouldMark(line: string, items: seq<Item>, minX1: real, thr: real, seen: bool) {
    var st := Strip(line);
    st != "" && !StartsMarked(st) && seen && Indented(st, items, minX1, thr)
  }

  /** The `for line in lines` loop with `first_content_found` as `found`. */
  function MarkLines(lines: seq<string>, items: seq<Item>, minX1: real, thr: real, found: bool): (r: seq<string>)
    ensures |r| == |lines|
    decreases |lines|
  {
    if |lines| == 0 then []
    else
      var line := lines[0];
      var st := Strip(line);
      if st == "" then [line] + MarkLines(lines[1..], items, minX1, thr, found)
      else if StartsMarked(st) then [line] + MarkLines(lines[1..], items, minX1, thr, true)
      else if found && Indented(st, items, minX1, thr) then ["- " + line] + MarkLines(lines[1..], items, minX1, thr, found)
      else [line] + MarkLines(lines[1..], items, minX1, thr, true)
  }

  /** Some line before the `i`-th has content. */
  predicate ContentBefore(lines: seq<string>, i: int) {
    exists j :: 0 <= j < i && j < |lines| && Strip(lines[j]) != ""
  }

  /** The flag the loop carries is exactly "some earlier line had content":
      a line is marked when it should be, given that, and left alone
      otherwise. */
  lemma {:induction false} MarkLinesSpec(lines: seq<string>, items: seq<Item>, minX1: real, thr: real, found: bool)
    ensures forall i :: 0 <= i < |lines| ==>
      MarkLines(lines, items, minX1, thr, found)[i]
        == if ShouldMark(lines[i], items, minX1, thr, found || ContentBefore(lines, i)) then "- " + lines[i] else lines[i]
    decreases |lines|
  {
    if |lines| > 0 {
      var found' := found || Strip(lines[0]) != "";
      var r := MarkLines(lines, items, minX1, thr, found);
      MarkLinesSpec(lines[1..], items, minX1, thr, found');
      assert r[1..] == MarkLines(lines[1..], items, minX1, thr, found');
      forall i | 0 <= i < |lines|
        ensures r[i] == if ShouldMark(lines[i], items, minX1, thr, found || ContentBefore(lines, i)) then "- " + lines[i] else lines[i]
      {
        if i == 0 {
          assert !ContentBefore(lines, 0);
        } else {
          assert r[i] == r[1..][i - 1] && lines[i] == lines[1..][i - 1];
          ContentBeforeStep(lines, i);
        }
      }
    }
  }

  lemma ContentBeforeStep(lines: seq<string>, i: int)
    requires 1 <= i < |lines|
    ensures ContentBefore(lines, i) == (Strip(lines[0]) != "" || ContentBefore(lines[1..], i - 1))
  {
    if ContentBefore(lines[1..], i - 1) {
      var j :| 0 <= j < i - 1 && j < |lines[1..]| && Strip(lines[1..][j]) != "";
      assert Strip(lines[j + 1]) != "";
    }
    if ContentBefore(lines, i) {
      var j :| 0 <= j < i && j < |lines| && Strip(lines[j]) != "";
      if j > 0 {
        assert Strip(lines[1..][j - 1]) != "";
      }
    }
  }

  function XLefts(items: seq<Item>): (r: seq<real>)
    ensures |r| == |items|
  {
    seq(|items|, i requires 0 <= i < |items| => items[i].box.x1)
  }

  function CountWithText(items: seq<Item>): nat {
    if |items| == 0 then 0 else CountWithText(items[..|items| - 1]) + (if |items[|items| - 1].text| > 0 then 1 else 0)
  }

  /** The indent threshold: twice the mean per-character width of the
      fragments with text, or 20 when none has text. */
  function IndentThreshold(items: seq<Item>): real {
    var n := CountWithText(items);
    var avg := if n > 0 then SumBy(items, CharWidthOf) / n as real else 10.0;
    avg * 2.0
  }

  function AddListMarkersByIndent(dets: seq<Detection>, text: string): (r: string)
    ensures |dets| < 2 ==> r == text
  {
    if |dets| < 2 then text
    else
      var items := Items(dets);
      Join(MarkLines(Split(text, '\n'), items, Min(XLefts(items)), IndentThreshold(items), false), '\n')
  }

  /** Marking keeps the lines: the same number, each either unchanged or
      prefixed with `- `, and a line is prefixed exactly when it should be
      marked given whether an earlier line had content. */
  lemma AddListMarkersLines(dets: seq<Detection>, text: string)
    requires |dets| >= 2
    ensures var items := Items(dets);
      var lines := Split(text, '\n');
      var out := Split(AddListMarkersByIndent(dets, text), '\n');
      && |out| == |lines|
      && forall i :: 0 <= i < |lines| ==>
           out[i] == if ShouldMark(lines[i], items, Min(XLefts(items)), IndentThreshold(items), ContentBefore(lines, i))
                     then "- " + lines[i] else lines[i]
  {
    var items := Items(dets);
    var minX1, thr := Min(XLefts(items)), IndentThreshold(items);
    var lines := Split(text, '\n');
    var marked := MarkLines(lines, items, minX1, thr, false);
    MarkLinesSpec(lines, items, minX1, thr, false);
    PrefixedLinesSplit(lines, marked);
    assert AddListMarkersByIndent(dets, text) == Join(marked, '\n');
  }

  /** Lines without line breaks, some of them prefixed with `- `, are
      recovered by splitting their joined text. */
  lemma PrefixedLinesSplit(lines: seq<string>, marked: seq<string>)
    requires |marked| == |lines| > 0
    requires forall i :: 0 <= i < |lines| ==> '\n' !in lines[i]
    requires forall i :: 0 <= i < |lines| ==> marked[i] == lines[i] || marked[i] == "- " + lines[i]
    ensures Split(Join(marked, '\n'), '\n') == marked
  {
    forall i | 0 <= i < |marked| ensures '\n' !in marked[i] {
      assert '\n' !in lines[i];
    }
    SplitJoin(marked, '\n');
  }

  /** The first line with content is never marked. */
  lemma FirstContentUnmarked(lines: seq<string>, items: seq<Item>, minX1: real, thr: real, i: int)
    requires 0 <= i < |lines| && !ContentBefore(lines, i)
    ensures MarkLines(lines, items, minX1, thr, false)[i] == lines[i]
  {
    MarkLinesSpec(lines, items, minX1, thr, false);
  }

  // ---------------------------------------------------------------------------
  // reconstruct_text_with_postprocess

  function ReconstructTextWithPostprocess(dets: seq<Detection>, ratio: real): (r: Result<string, LayoutError>)
    ensures r.Err? <==> ReconstructText(dets, ratio).Err?
  {
    match ReconstructText(dets, ratio)
    case Err(e) => Err(e)
    case Ok(raw) => Ok(AddListMarkersByIndent(dets, PostProcessText(raw)))
  }

  /** Post-processing keeps the line structure of the reconstructed text: as
      many lines as the plain reconstruction. */
  lemma PostprocessKeepsLines(dets: seq<Detection>, ratio: real)
    requires ReconstructText(dets, ratio).Ok?
    ensures |Split(ReconstructTextWithPostprocess(dets, ratio).value, '\n')|
         == |Split(ReconstructText(dets, ratio).value, '\n')|
  {
    var raw := ReconstructText(dets, ratio).value;
    var fixed := PostProcessText(raw);
    PostProcessInsertsSpaces(raw);
    if |dets| >= 2 {
      AddListMarkersLines(dets, fixed);
    }
  }
}
