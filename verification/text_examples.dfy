/** `post_process_text` on a single word boundary, and the repository's
    accuracy-test inputs as instances. */
module TextExamples {
  import opened Strings
  import opened TextFixes

  /** No character of the text is one of the four marks. */
  predicate Plain(s: string) {
    '#' !in s && ':' !in s && ',' !in s && ';' !in s
  }

  lemma PlainClean(s: string, mark: char, excluded: set<char>)
    requires Plain(s) && mark in {'#', ':', ',', ';'}
    ensures forall i :: !FiresAt(s, i, mark, excluded)
  {
  }

  /** A separator between two plain words gets one space after it, unless
      it is a colon before a `/`. */
  lemma SeparatorGetsSpace(u: string, m: char, v: string)
    requires Plain(u) && Plain(v) && m in {':', ',', ';'}
    requires |v| > 0 && !IsSpace(v[0]) && (m == ':' ==> v[0] != '/')
    ensures PostProcessText(u + [m] + v) == u + [m, ' '] + v
  {
    var s := u + [m] + v;
    var t := u + [m, ' '] + v;
    assert '#' !in s;
    SpaceAfterWithoutMark(s, '#', HeadingExcluded);
    PlainClean(v, m, {});
    PlainClean(v, m, ColonExcluded);
    forall ex: set<char>, i ensures !FiresAt(u + [m], i, m, ex) {
    }
    if m == ':' {
      SpaceAfterOnce(u, m, v, ColonExcluded);
      assert ',' !in t && ';' !in t;
      SpaceAfterWithoutMark(t, ',', NoneExcluded);
      SpaceAfterWithoutMark(t, ';', NoneExcluded);
    } else if m == ',' {
      assert ':' !in s && ';' !in t;
      SpaceAfterWithoutMark(s, ':', ColonExcluded);
      SpaceAfterOnce(u, m, v, NoneExcluded);
      SpaceAfterWithoutMark(t, ';', NoneExcluded);
    } else {
      assert ':' !in s && ',' !in s;
      SpaceAfterWithoutMark(s, ':', ColonExcluded);
      SpaceAfterWithoutMark(s, ',', NoneExcluded);
      SpaceAfterOnce(u, m, v, NoneExcluded);
    }
  }

  /** A colon directly before a `/`, as in a URL, is left alone. */
  lemma ColonBeforeSlash(u: string, v: string)
    requires Plain(u) && Plain(v) && |v| > 0 && v[0] == '/'
    ensures PostProcessText(u + [':'] + v) == u + [':'] + v
  {
    var s := u + [':'] + v;
    assert '#' !in s && ',' !in s && ';' !in s;
    SpaceAfterWithoutMark(s, '#', HeadingExcluded);
    forall i ensures !FiresAt(s, i, ':', ColonExcluded) {
      if 0 <= i < |s| - 1 && s[i] == ':' {
        assert i == |u|;
      }
    }
    SpaceAfterFixpoint(s, ':', ColonExcluded);
    SpaceAfterWithoutMark(s, ',', NoneExcluded);
    SpaceAfterWithoutMark(s, ';', NoneExcluded);
  }

  function Hashes(n: nat): (r: string)
    ensures |r| == n && forall i :: 0 <= i < n ==> r[i] == '#'
  {
    seq(n, _ => '#')
  }

  /** A run of `#` directly followed by a plain word gets one space after the
      run, whatever its length. */
  lemma HeadingGetsSpace(n: nat, v: string)
    requires n >= 1 && Plain(v) && |v| > 0 && !IsSpace(v[0])
    ensures PostProcessText(Hashes(n) + v) == Hashes(n) + " " + v
  {
    var u := Hashes(n - 1);
    assert Hashes(n) + v == u + ['#'] + v by {
      assert Hashes(n) == u + ['#'];
    }
    HashesQuiet(u);
    PlainClean(v, '#', HeadingExcluded);
    SpaceAfterOnce(u, '#', v, HeadingExcluded);
    assert u + ['#', ' '] + v == Hashes(n) + " " + v by {
      assert Hashes(n) == u + ['#'];
    }
    HashesPlainAfter(n, v);
    HeadingsOnly(Hashes(n) + v);
  }

  /** Inside a run of `#`, the heading rule only fires at the last one. */
  lemma HashesQuiet(u: string)
    requires forall i :: 0 <= i < |u| ==> u[i] == '#'
    ensures forall i :: !FiresAt(u + ['#'], i, '#', HeadingExcluded)
  {
    forall i ensures !FiresAt(u + ['#'], i, '#', HeadingExcluded) {
      if 0 <= i < |u| {
        assert (u + ['#'])[i + 1] == '#';
      }
    }
  }

  lemma HashesPlainAfter(n: nat, v: string)
    requires Plain(v)
    ensures var t := Hashes(n) + " " + v;
      ':' !in t && ',' !in t && ';' !in t
  {
  }

  /** When the heading pass leaves no colon, comma or semicolon, the later
      passes change nothing. */
  lemma HeadingsOnly(text: string)
    requires var h := SpaceAfter(text, '#', HeadingExcluded);
      ':' !in h && ',' !in h && ';' !in h
    ensures PostProcessText(text) == SpaceAfter(text, '#', HeadingExcluded)
  {
    var h := SpaceAfter(text, '#', HeadingExcluded);
    SpaceAfterWithoutMark(h, ':', ColonExcluded);
    SpaceAfterWithoutMark(h, ',', NoneExcluded);
    SpaceAfterWithoutMark(h, ';', NoneExcluded);
  }

  lemma KeyFeaturesExample(s: string)
    requires s == "###Key Features"
    ensures PostProcessText(s) == "### Key Features"
  {
    var v := s[3..];
    KeyFeaturesWord(v);
    assert s == Hashes(3) + v by {
      assert s[..3] == Hashes(3);
    }
    HeadingGetsSpace(3, v);
  }

  lemma KeyFeaturesWord(v: string)
    requires v == "Key Features"
    ensures Plain(v) && |v| > 0 && !IsSpace(v[0])
  {
  }

  lemma SectionExample(s: string)
    requires s == "##Section"
    ensures PostProcessText(s) == "## Section"
  {
    assert Hashes(2) == "##";
    HeadingGetsSpace(2, "Section");
    assert s == Hashes(2) + "Section";
  }

  lemma ModeExample(s: string)
    requires s == "mode:outputs"
    ensures PostProcessText(s) == "mode: outputs"
  {
    ModeWords(s);
    SeparatorGetsSpace("mode", ':', "outputs");
  }

  lemma ModeWords(s: string)
    requires s == "mode:outputs"
    ensures Plain("mode") && Plain("outputs") && !IsSpace('o')
    ensures s == "mode" + [':'] + "outputs" && "mode" + [':', ' '] + "outputs" == "mode: outputs"
  {
  }

  /** The comma and semicolon cases of tests/test_ocr_accuracy.py. */
  lemma SeparatorExamples(c: string, d: string)
    requires c == "word1,word2" && d == "item1;item2"
    ensures PostProcessText(c) == "word1, word2"
    ensures PostProcessText(d) == "item1; item2"
  {
    SeparatorWords(c, d);
    SeparatorGetsSpace("word1", ',', "word2");
    SeparatorGetsSpace("item1", ';', "item2");
  }

  lemma SeparatorWords(c: string, d: string)
    requires c == "word1,word2" && d == "item1;item2"
    ensures Plain("word1") && Plain("word2") && Plain("item1") && Plain("item2")
    ensures !IsSpace('w') && !IsSpace('i')
    ensures c == "word1" + [','] + "word2" && "word1" + [',', ' '] + "word2" == "word1, word2"
    ensures d == "item1" + [';'] + "item2" && "item1" + [';', ' '] + "item2" == "item1; item2"
  {
  }

  lemma FirstColonRun(s: string)
    requires s == "a::b"
    ensures SpaceAfter(s, ':', ColonExcluded) == "a: :b"
  {
    assert !FiresAt(s, 0, ':', ColonExcluded) && s[1..] == "::b";
    assert FiresAt(s[1..], 0, ':', ColonExcluded) && s[1..][2..] == "b";
    SpaceAfterWithoutMark("b", ':', ColonExcluded);
  }

  lemma SecondColonRun(t: string)
    requires t == "a: :b"
    ensures SpaceAfter(t, ':', ColonExcluded) == "a: : b"
  {
    assert !FiresAt(t, 0, ':', ColonExcluded) && t[1..] == ": :b";
    assert !FiresAt(t[1..], 0, ':', ColonExcluded) && t[1..][1..] == " :b";
    assert !FiresAt(t[1..][1..], 0, ':', ColonExcluded) && t[1..][1..][1..] == ":b";
    var c := t[1..][1..][1..];
    assert FiresAt(c, 0, ':', ColonExcluded) && c[2..] == "";
    assert SpaceAfter(c, ':', ColonExcluded) == ": b";
    assert SpaceAfter(t[1..][1..], ':', ColonExcluded) == " : b";
    assert SpaceAfter(t[1..], ':', ColonExcluded) == ":  : b"[..1] + " : b";
  }

  /** The colon pass consumes the character after a matching colon, so in
      `::` only the first colon gets its space; a second run then spaces the
      other one: post-processing is not idempotent. */
  lemma NotIdempotent(s: string)
    requires s == "a::b"
    ensures PostProcessText(s) == "a: :b"
    ensures PostProcessText(PostProcessText(s)) == "a: : b"
  {
    var t := "a: :b";
    var w := "a: : b";
    assert '#' !in s && '#' !in t && ',' !in t && ';' !in t && ',' !in w && ';' !in w;
    SpaceAfterWithoutMark(s, '#', HeadingExcluded);
    SpaceAfterWithoutMark(t, '#', HeadingExcluded);
    SpaceAfterWithoutMark(t, ',', NoneExcluded);
    SpaceAfterWithoutMark(t, ';', NoneExcluded);
    SpaceAfterWithoutMark(w, ',', NoneExcluded);
    SpaceAfterWithoutMark(w, ';', NoneExcluded);
    FirstColonRun(s);
    SecondColonRun(t);
  }
}
