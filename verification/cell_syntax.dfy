/** The cell grammar of `parse_cell` in postprocess.py, the regular expression
    `^\s*(-?[\d\.]+)\s*(e[+-]?\d+)?\s*([f|p|n|u|m|k|M|G])?([a-zA-Z]*)\s*$`,
    read as a deterministic scanner, and the decimal value the matched number
    denotes. */
module CellSyntax {
  import opened Outcomes
  import opened Strings
  import opened Powers

  predicate IsNumberChar(c: char) {
    IsDigit(c) || c == '.'
  }

  predicate IsSign(c: char) {
    c == '+' || c == '-'
  }

  /** The character class `[f|p|n|u|m|k|M|G]`: the bar between the letters is
      itself a member of the class. */
  predicate IsPrefixChar(c: char) {
    c == 'f' || c == 'p' || c == 'n' || c == 'u' || c == 'm' || c == 'k' || c == 'M' || c == 'G' || c == '|'
  }

  predicate All(s: string, p: char -> bool) {
    forall i :: 0 <= i < |s| ==> p(s[i])
  }

  /** Starts with a character outside `p`, or is empty: a greedy run of `p`
      stops in front of it. */
  predicate StopsRun(s: string, p: char -> bool) {
    |s| == 0 || !p(s[0])
  }

  // ---------------------------------------------------------------------------
  // the matched groups

  /** `match.groups()` with an absent group written as the empty string. */
  datatype Lexeme = Lexeme(number: string, sci: string, prefix: string, unit: string)

  /** Group 1, `-?[\d\.]+`. */
  predicate NumberPart(t: string) {
    if |t| > 0 && t[0] == '-' then |t| > 1 && All(t[1..], IsNumberChar)
    else |t| > 0 && All(t, IsNumberChar)
  }

  /** Group 2 when present, `e[+-]?\d+`. */
  predicate SciPart(t: string) {
    && |t| >= 2 && t[0] == 'e'
    && if IsSign(t[1]) then |t| >= 3 && AllDigits(t[2..]) else AllDigits(t[1..])
  }

  /** Group 3, empty or one character of the class. */
  predicate PrefixPart(t: string) {
    t == "" || (|t| == 1 && IsPrefixChar(t[0]))
  }

  /** The groups a successful match can produce. The greedy optional prefix
      group takes a class character whenever one follows, so an empty prefix
      is never followed by a unit that starts with one. */
  predicate Canonical(l: Lexeme) {
    NumberPart(l.number) && (l.sci == "" || SciPart(l.sci)) && TailOk(l.prefix, l.unit)
  }

  /** Groups 3 and 4. */
  predicate TailOk(prefix: string, unit: string) {
    && PrefixPart(prefix)
    && All(unit, IsLetter)
    && (prefix == "" && unit != "" ==> !IsPrefixChar(unit[0]))
  }

  /** A cell laid out as the groups with whitespace runs at the places the
      pattern's `\s*` admit them. */
  function Spaced(l: Lexeme, g0: string, g1: string, g2: string, g3: string): string {
    g0 + (l.number + (g1 + (l.sci + (g2 + (l.prefix + (l.unit + g3))))))
  }

  lemma SpacedAsBy(s: string, l: Lexeme, g0: string, g1: string, g2: string, g3: string)
    requires All(g0, IsSpace) && All(g1, IsSpace) && All(g2, IsSpace) && All(g3, IsSpace)
    requires s == Spaced(l, g0, g1, g2, g3)
    ensures SpacedAs(s, l)
  {
  }

  ghost predicate SpacedAs(s: string, l: Lexeme) {
    exists g0, g1, g2, g3 ::
      All(g0, IsSpace) && All(g1, IsSpace) && All(g2, IsSpace) && All(g3, IsSpace)
      && s == Spaced(l, g0, g1, g2, g3)
  }

  // ---------------------------------------------------------------------------
  // the scanner

  /** The longest prefix of `t` whose characters satisfy `p`. */
  function TakeWhile(t: string, p: char -> bool): (r: string)
    ensures |r| <= |t| && r == t[..|r|]
    ensures All(r, p)
    ensures StopsRun(t[|r|..], p)
  {
    if |t| > 0 && p(t[0]) then [t[0]] + TakeWhile(t[1..], p) else ""
  }

  /** The optional group `(e[+-]?\d+)?` at the start of `t`: the group when it
      matches there, otherwise the empty string. */
  function SciPrefix(t: string): (r: string)
    ensures |r| <= |t| && r == t[..|r|]
    ensures r == "" || (SciPart(r) && StopsRun(t[|r|..], IsDigit))
  {
    if |t| > 0 && t[0] == 'e' then
      var k := if |t| > 1 && IsSign(t[1]) then 2 else 1;
      var d := TakeWhile(t[k..], IsDigit);
      if |d| > 0 then
        assert t[..k + |d|][k..] == d;
        assert t[k + |d|..] == t[k..][|d|..];
        t[..k + |d|]
      else ""
    else ""
  }

  /** The group `-?[\d\.]+` at the start of `t`, or the empty string when
      it does not match there. */
  function NumberGroup(t: string): (r: string)
    ensures |r| <= |t| && r == t[..|r|]
    ensures r == "" || (NumberPart(r) && StopsRun(t[|r|..], IsNumberChar))
  {
    var sign := if |t| > 0 && t[0] == '-' then "-" else "";
    var digits := TakeWhile(t[|sign|..], IsNumberChar);
    if digits == "" then ""
    else
      assert t[..|sign| + |digits|] == sign + digits;
      assert t[|sign| + |digits|..] == t[|sign|..][|digits|..];
      sign + digits
  }

  /** The optional group `([f|p|n|u|m|k|M|G])?` at the start of `t`. */
  function PrefixGroup(t: string): (r: string)
    ensures |r| <= |t| && r == t[..|r|] && PrefixPart(r)
    ensures r == "" <==> StopsRun(t, IsPrefixChar)
  {
    if |t| > 0 && IsPrefixChar(t[0]) then t[..1] else ""
  }

  /** The pattern from group 3 on, `([f|p|n|u|m|k|M|G])?([a-zA-Z]*)\s*$`,
      at the start of `t`. */
  function UnitTail(t: string): Option<(string, string)> {
    var prefix := PrefixGroup(t);
    var t6 := t[|prefix|..];
    var unit := TakeWhile(t6, IsLetter);
    if TrimLeft(t6[|unit|..]) != "" then None else Some((prefix, unit))
  }

  /** The pattern from the blanks after group 1 on. */
  function SciTail(t: string): Option<(string, string, string)> {
    var t3 := TrimLeft(t);
    var sci := SciPrefix(t3);
    match UnitTail(TrimLeft(t3[|sci|..]))
    case None => None
    case Some((prefix, unit)) => Some((sci, prefix, unit))
  }

  /** `pattern.match(s)`; the greedy groups leave no room for backtracking, so
      the match, when there is one, is found in a single pass. */
  function Lex(s: string): Option<Lexeme> {
    var t0 := TrimLeft(s);
    var number := NumberGroup(t0);
    if number == "" then None
    else
      match SciTail(t0[|number|..])
      case None => None
      case Some((sci, prefix, unit)) => Some(Lexeme(number, sci, prefix, unit))
  }

  // ---------------------------------------------------------------------------
  // the scanner matches exactly the spaced canonical layouts

  lemma Cut(t: string, i: int)
    requires 0 <= i <= |t|
    ensures t == t[..i] + t[i..]
  {
  }

  lemma Cut3(t: string, i: int, j: int)
    requires 0 <= i <= j <= |t|
    ensures t == t[..i] + (t[i..j] + t[j..])
  {
  }

  lemma DropFront(a: string, b: string)
    ensures (a + b)[|a|..] == b && (a + b)[..|a|] == a
  {
  }

  lemma {:induction false} TrimLeftAfterSpaces(g: string, b: string)
    requires All(g, IsSpace)
    ensures TrimLeft(g + b) == TrimLeft(b)
    decreases |g|
  {
    if |g| > 0 {
      assert TrimLeft(g + b) == TrimLeft(g[1..] + b) by {
        var t := g + b;
        assert t[0] == g[0] && IsSpace(t[0]);
        assert t[1..] == g[1..] + b;
      }
      assert All(g[1..], IsSpace);
      TrimLeftAfterSpaces(g[1..], b);
    } else {
      assert g + b == b;
    }
  }

  lemma TrimLeftSpaced(g: string, b: string)
    requires All(g, IsSpace) && StopsRun(b, IsSpace)
    ensures TrimLeft(g + b) == b
  {
    TrimLeftAfterSpaces(g, b);
  }

  lemma {:induction false} TakeWhileRun(a: string, b: string, p: char -> bool)
    requires All(a, p) && StopsRun(b, p)
    ensures TakeWhile(a + b, p) == a
    decreases |a|
  {
    if |a| > 0 {
      assert (a + b)[0] == a[0] && (a + b)[1..] == a[1..] + b;
      TakeWhileRun(a[1..], b, p);
    } else {
      assert a + b == b;
    }
  }

  lemma SciPrefixRun(e: string, b: string)
    requires SciPart(e) && StopsRun(b, IsDigit)
    ensures SciPrefix(e + b) == e
  {
    var t := e + b;
    var k := if IsSign(e[1]) then 2 else 1;
    assert t[1] == e[1];
    assert t[k..] == e[k..] + b;
    TakeWhileRun(e[k..], b, IsDigit);
    assert t[..k + |e[k..]|] == e;
  }

  /** Where no exponent can start, the optional group is skipped. */
  lemma SciPrefixAbsent(t: string)
    requires |t| == 0 || t[0] != 'e' || |t| == 1 || (!IsSign(t[1]) && !IsDigit(t[1]))
    ensures SciPrefix(t) == ""
  {
    if |t| > 1 && t[0] == 'e' {
      assert t[1..][0] == t[1];
    }
  }

  /** What follows the number group never continues it. */
  lemma AfterNumber(l: Lexeme, g1: string, g2: string, g3: string)
    requires Canonical(l) && All(g1, IsSpace) && All(g2, IsSpace) && All(g3, IsSpace)
    ensures StopsRun(g1 + (l.sci + (g2 + (l.prefix + (l.unit + g3)))), IsNumberChar)
  {
    var r := g1 + (l.sci + (g2 + (l.prefix + (l.unit + g3))));
    if |g1| > 0 {
      assert r[0] == g1[0];
    } else if l.sci != "" {
      assert r[0] == l.sci[0];
    } else if |g2| > 0 {
      assert r[0] == g2[0];
    } else if l.prefix != "" {
      assert r[0] == l.prefix[0];
    } else if l.unit != "" {
      assert r[0] == l.unit[0];
    } else if |g3| > 0 {
      assert r[0] == g3[0];
    } else {
      assert r == "";
    }
  }

  lemma NumberGroupRun(n: string, b: string)
    requires NumberPart(n) && StopsRun(b, IsNumberChar)
    ensures NumberGroup(n + b) == n
  {
    var t := n + b;
    var sign := if t[0] == '-' then "-" else "";
    assert t[0] == n[0];
    assert t[|sign|..] == n[|sign|..] + b;
    TakeWhileRun(n[|sign|..], b, IsNumberChar);
    assert sign + n[|sign|..] == n;
  }

  lemma UnitTailComplete(prefix: string, unit: string, g3: string)
    requires TailOk(prefix, unit) && All(g3, IsSpace)
    ensures UnitTail(prefix + (unit + g3)) == Some((prefix, unit))
  {
    var t := prefix + (unit + g3);
    assert PrefixGroup(t) == prefix by {
      if prefix != "" {
        assert t[0] == prefix[0];
      } else if unit != "" {
        assert t[0] == unit[0];
      } else if g3 != "" {
        assert t[0] == g3[0];
      }
    }
    assert t[|prefix|..] == unit + g3;
    TakeWhileRun(unit, g3, IsLetter);
    assert (unit + g3)[|unit|..] == g3;
    TrimLeftAfterSpaces(g3, "");
    assert g3 + "" == g3;
  }

  lemma UnitTailGroups(t: string)
    requires UnitTail(t).Some?
    ensures TailOk(UnitTail(t).value.0, UnitTail(t).value.1)
  {
    var prefix := PrefixGroup(t);
    var t6 := t[|prefix|..];
    var unit := TakeWhile(t6, IsLetter);
    assert prefix == "" && unit != "" ==> unit[0] == t6[0] == t[0];
  }

  lemma UnitTailLayout(t: string)
    requires UnitTail(t).Some?
    ensures var prefix, unit := UnitTail(t).value.0, UnitTail(t).value.1;
      All(t[|prefix| + |unit|..], IsSpace) && t == prefix + (unit + t[|prefix| + |unit|..])
  {
    var prefix := PrefixGroup(t);
    var unit := TakeWhile(t[|prefix|..], IsLetter);
    assert UnitTail(t) == Some((prefix, unit));
    ThreeRuns(t, prefix, unit);
  }

  /** A text that starts with `a`, continues with `b` and ends in blanks. */
  lemma ThreeRuns(t: string, a: string, b: string)
    requires |a| <= |t| && a == t[..|a|]
    requires |b| <= |t[|a|..]| && b == t[|a|..][..|b|]
    requires TrimLeft(t[|a|..][|b|..]) == ""
    ensures All(t[|a| + |b|..], IsSpace) && t == a + (b + t[|a| + |b|..])
  {
    assert t[|a| + |b|..] == t[|a|..][|b|..];
    BlankAfterTrim(t[|a| + |b|..]);
    Cut3Slices(t, a, b);
  }

  lemma Cut3Slices(t: string, a: string, b: string)
    requires |a| <= |t| && a == t[..|a|]
    requires |b| <= |t[|a|..]| && b == t[|a|..][..|b|]
    ensures t == a + (b + t[|a| + |b|..])
  {
    assert b == t[|a|..|a| + |b|];
    Cut3(t, |a|, |a| + |b|);
  }

  lemma BlankAfterTrim(s: string)
    requires TrimLeft(s) == ""
    ensures All(s, IsSpace)
  {
  }

  lemma UnitTailSound(t: string)
    requires UnitTail(t).Some?
    ensures var prefix, unit := UnitTail(t).value.0, UnitTail(t).value.1;
      TailOk(prefix, unit) && All(t[|prefix| + |unit|..], IsSpace)
      && t == prefix + (unit + t[|prefix| + |unit|..])
  {
    UnitTailGroups(t);
    UnitTailLayout(t);
  }

  /** The prefix and unit, after blanks are skipped, come out as they are. */
  lemma UnitTailAfterBlanks(prefix: string, unit: string, g3: string)
    requires TailOk(prefix, unit) && All(g3, IsSpace)
    ensures UnitTail(TrimLeft(prefix + (unit + g3))) == Some((prefix, unit))
  {
    var r := prefix + (unit + g3);
    if prefix + unit != "" {
      assert StopsRun(r, IsSpace) by {
        if prefix != "" {
          assert r[0] == prefix[0];
        } else {
          assert r[0] == unit[0];
        }
      }
      TrimLeftSpaced("", r);
      assert "" + r == r;
      UnitTailComplete(prefix, unit, g3);
    } else {
      assert r == g3 + "";
      TrimLeftAfterSpaces(g3, "");
      UnitTailComplete("", "", "");
      assert "" + ("" + "") == "";
    }
  }

  /** Without an exponent group, the prefix and unit cannot be mistaken for
      one: no class character is `e`, and a unit starting with `e` continues
      with a letter. */
  lemma NoSciBeforeTail(prefix: string, unit: string, g3: string)
    requires TailOk(prefix, unit) && All(g3, IsSpace)
    ensures SciPrefix(TrimLeft(prefix + (unit + g3))) == ""
  {
    var r := prefix + (unit + g3);
    if prefix + unit != "" {
      TailStartsWord(prefix, unit, g3);
      TrimLeftSpaced("", r);
      assert "" + r == r;
      SciPrefixAbsent(r);
    } else {
      assert r == g3 + "";
      TrimLeftAfterSpaces(g3, "");
    }
  }

  /** A non-empty prefix and unit start with a letter or a bar, and a unit
      starting with `e` goes on with a letter or a blank. */
  lemma TailStartsWord(prefix: string, unit: string, g3: string)
    requires TailOk(prefix, unit) && All(g3, IsSpace) && prefix + unit != ""
    ensures var r := prefix + (unit + g3);
      && StopsRun(r, IsSpace)
      && (r[0] != 'e' || |r| == 1 || (!IsSign(r[1]) && !IsDigit(r[1])))
  {
    var r := prefix + (unit + g3);
    if prefix != "" {
      assert r[0] == prefix[0];
    } else {
      assert r[0] == unit[0];
      if |unit| > 1 {
        assert r[1] == unit[1];
      } else if |r| > 1 {
        assert r[1] == g3[0];
      }
    }
  }

  lemma AfterSci(prefix: string, unit: string, g2: string, g3: string)
    requires TailOk(prefix, unit) && All(g2, IsSpace) && All(g3, IsSpace)
    ensures StopsRun(g2 + (prefix + (unit + g3)), IsDigit)
  {
    var r := g2 + (prefix + (unit + g3));
    if g2 != "" {
      assert r[0] == g2[0];
    } else if prefix != "" {
      assert r[0] == prefix[0];
    } else if unit != "" {
      assert r[0] == unit[0];
    } else if g3 != "" {
      assert r[0] == g3[0];
    }
  }

  lemma SciTailWithSci(sci: string, prefix: string, unit: string, g1: string, g2: string, g3: string)
    requires SciPart(sci) && TailOk(prefix, unit)
    requires All(g1, IsSpace) && All(g2, IsSpace) && All(g3, IsSpace)
    ensures SciTail(g1 + (sci + (g2 + (prefix + (unit + g3))))) == Some((sci, prefix, unit))
  {
    var r5 := prefix + (unit + g3);
    var r4 := g2 + r5;
    assert StopsRun(sci + r4, IsSpace) by {
      assert (sci + r4)[0] == 'e';
    }
    TrimLeftSpaced(g1, sci + r4);
    AfterSci(prefix, unit, g2, g3);
    SciPrefixRun(sci, r4);
    DropFront(sci, r4);
    TrimLeftAfterSpaces(g2, r5);
    UnitTailAfterBlanks(prefix, unit, g3);
  }

  lemma SciTailWithoutSci(prefix: string, unit: string, g1: string, g2: string, g3: string)
    requires TailOk(prefix, unit)
    requires All(g1, IsSpace) && All(g2, IsSpace) && All(g3, IsSpace)
    ensures SciTail(g1 + ("" + (g2 + (prefix + (unit + g3))))) == Some(("", prefix, unit))
  {
    var r5 := prefix + (unit + g3);
    assert g1 + ("" + (g2 + r5)) == g1 + (g2 + r5);
    TrimLeftAfterSpaces(g1, g2 + r5);
    TrimLeftAfterSpaces(g2, r5);
    var t3 := TrimLeft(r5);
    NoSciBeforeTail(prefix, unit, g3);
    assert t3[|""|..] == t3;
    StripIdempotentLeft(r5);
    UnitTailAfterBlanks(prefix, unit, g3);
  }

  lemma StripIdempotentLeft(s: string)
    ensures TrimLeft(TrimLeft(s)) == TrimLeft(s)
  {
    var r := TrimLeft(s);
    assert StopsRun(r, IsSpace);
    TrimLeftSpaced("", r);
    assert "" + r == r;
  }

  /** In the blank run after group 1 and after group 2, or in place of the
      absent group 2, only blanks come before the prefix and unit. */
  lemma SciTailComplete(l: Lexeme, g1: string, g2: string, g3: string)
    requires Canonical(l) && All(g1, IsSpace) && All(g2, IsSpace) && All(g3, IsSpace)
    ensures SciTail(g1 + (l.sci + (g2 + (l.prefix + (l.unit + g3))))) == Some((l.sci, l.prefix, l.unit))
  {
    if l.sci != "" {
      SciTailWithSci(l.sci, l.prefix, l.unit, g1, g2, g3);
    } else {
      SciTailWithoutSci(l.prefix, l.unit, g1, g2, g3);
    }
  }

  /** `t` is groups 2 to 4 with the blank runs the pattern admits. */
  ghost predicate TailSpaced(t: string, sci: string, prefix: string, unit: string) {
    exists g1, g2, g3 :: All(g1, IsSpace) && All(g2, IsSpace) && All(g3, IsSpace)
      && t == g1 + (sci + (g2 + (prefix + (unit + g3))))
  }

  lemma TailSpacedBy(t: string, sci: string, prefix: string, unit: string, g1: string, g2: string, g3: string)
    requires All(g1, IsSpace) && All(g2, IsSpace) && All(g3, IsSpace)
    requires t == g1 + (sci + (g2 + (prefix + (unit + g3))))
    ensures TailSpaced(t, sci, prefix, unit)
  {
  }

  /** The blanks `TrimLeft` skips, returned as `g`. */
  lemma BlankLead(t: string) returns (g: string)
    ensures All(g, IsSpace) && t == g + TrimLeft(t)
  {
    var r := TrimLeft(t);
    g := t[..|t| - |r|];
    Cut(t, |t| - |r|);
  }

  lemma LayoutPieces(t: string, t3: string, sci: string, t5: string)
    requires t3 == TrimLeft(t) && sci == SciPrefix(t3) && t5 == TrimLeft(t3[|sci|..])
    requires UnitTail(t5).Some?
    ensures TailSpaced(t, sci, UnitTail(t5).value.0, UnitTail(t5).value.1)
  {
    var g1 := BlankLead(t);
    var t4 := t3[|sci|..];
    assert t3 == sci + t4 by {
      Cut(t3, |sci|);
    }
    var g2 := BlankLead(t4);
    UnitTailLayout(t5);
    var prefix, unit := UnitTail(t5).value.0, UnitTail(t5).value.1;
    var g3 := t5[|prefix| + |unit|..];
    Nest(t, g1, t3, sci, t4, g2, t5, prefix + (unit + g3));
    TailSpacedBy(t, sci, prefix, unit, g1, g2, g3);
  }

  lemma Nest(t: string, g1: string, t3: string, sci: string, t4: string, g2: string, t5: string, r: string)
    requires t == g1 + t3 && t3 == sci + t4 && t4 == g2 + t5 && t5 == r
    ensures t == g1 + (sci + (g2 + r))
  {
  }

  lemma SciTailLayout(t: string)
    requires SciTail(t).Some?
    ensures var sci, prefix, unit := SciTail(t).value.0, SciTail(t).value.1, SciTail(t).value.2;
      TailSpaced(t, sci, prefix, unit)
  {
    var t3 := TrimLeft(t);
    var sci := SciPrefix(t3);
    var t5 := TrimLeft(t3[|sci|..]);
    assert SciTail(t).value == (sci, UnitTail(t5).value.0, UnitTail(t5).value.1);
    LayoutPieces(t, t3, sci, t5);
  }

  lemma SciTailSound(t: string)
    requires SciTail(t).Some?
    ensures var sci, prefix, unit := SciTail(t).value.0, SciTail(t).value.1, SciTail(t).value.2;
      (sci == "" || SciPart(sci)) && TailOk(prefix, unit) && TailSpaced(t, sci, prefix, unit)
  {
    var t3 := TrimLeft(t);
    var sci := SciPrefix(t3);
    UnitTailGroups(TrimLeft(t3[|sci|..]));
    SciTailLayout(t);
  }

  /** Leading blanks are skipped and the number group is read whole. */
  lemma NumberStep(l: Lexeme, g0: string, r2: string)
    requires NumberPart(l.number) && All(g0, IsSpace) && StopsRun(r2, IsNumberChar)
    ensures var r1 := l.number + r2;
      TrimLeft(g0 + r1) == r1 && NumberGroup(r1) == l.number && r1[|l.number|..] == r2
  {
    var r1 := l.number + r2;
    DropFront(l.number, r2);
    assert StopsRun(r1, IsSpace) by {
      assert r1[0] == l.number[0];
    }
    TrimLeftSpaced(g0, r1);
    NumberGroupRun(l.number, r2);
  }

  lemma {:induction false} LexComplete(l: Lexeme, g0: string, g1: string, g2: string, g3: string)
    requires Canonical(l)
    requires All(g0, IsSpace) && All(g1, IsSpace) && All(g2, IsSpace) && All(g3, IsSpace)
    ensures Lex(Spaced(l, g0, g1, g2, g3)) == Some(l)
  {
    var r2 := g1 + (l.sci + (g2 + (l.prefix + (l.unit + g3))));
    AfterNumber(l, g1, g2, g3);
    NumberStep(l, g0, r2);
    SciTailComplete(l, g1, g2, g3);
    LexSteps(Spaced(l, g0, g1, g2, g3), l.number + r2, l.number, r2);
  }

  /** One unfolding of `Lex` past the number group. */
  lemma LexSteps(s: string, t0: string, number: string, rest: string)
    requires TrimLeft(s) == t0 && NumberGroup(t0) == number && number != ""
    requires t0[|number|..] == rest && SciTail(rest).Some?
    ensures Lex(s) == Some(Lexeme(number, SciTail(rest).value.0, SciTail(rest).value.1, SciTail(rest).value.2))
  {
  }

  lemma {:induction false} LexSound(s: string)
    requires Lex(s).Some?
    ensures Canonical(Lex(s).value) && SpacedAs(s, Lex(s).value)
  {
    var l := Lex(s).value;
    var t0 := TrimLeft(s);
    var g0 := BlankLead(s);
    var number := NumberGroup(t0);
    var t2 := t0[|number|..];
    Cut(t0, |number|);
    SciTailSound(t2);
    assert l == Lexeme(number, SciTail(t2).value.0, SciTail(t2).value.1, SciTail(t2).value.2);
    var g1, g2, g3 :| All(g1, IsSpace) && All(g2, IsSpace) && All(g3, IsSpace)
      && t2 == g1 + (l.sci + (g2 + (l.prefix + (l.unit + g3))));
    assert s == Spaced(l, g0, g1, g2, g3);
    SpacedAsBy(s, l, g0, g1, g2, g3);
  }

  /** The pattern matches a cell exactly when the cell is a canonical group
      sequence spaced as the pattern allows; the groups are then the match's. */
  lemma LexExact(s: string, l: Lexeme)
    ensures Lex(s) == Some(l) <==> Canonical(l) && SpacedAs(s, l)
  {
    if Lex(s) == Some(l) {
      LexSound(s);
    }
    if Canonical(l) && SpacedAs(s, l) {
      var g0, g1, g2, g3 :| All(g0, IsSpace) && All(g1, IsSpace) && All(g2, IsSpace) && All(g3, IsSpace)
        && s == Spaced(l, g0, g1, g2, g3);
      LexComplete(l, g0, g1, g2, g3);
    }
  }

  // ---------------------------------------------------------------------------
  // the decimal value, as `Decimal(num_part + sci_part)` reads it

  /** The number group without its minus sign. */
  function Body(number: string): string {
    if |number| > 0 && number[0] == '-' then number[1..] else number
  }

  predicate HasDigit(t: string) {
    exists i :: 0 <= i < |t| && IsDigit(t[i])
  }

  /** `Decimal()` accepts the digits and dots only with at most one dot and at
      least one digit. */
  predicate DecimalOk(number: string) {
    Count(Body(number), '.') <= 1 && HasDigit(Body(number))
  }

  /** The digits with the dots dropped. */
  function DigitsOf(t: string): string {
    if |t| == 0 then "" else (if t[0] == '.' then "" else [t[0]]) + DigitsOf(t[1..])
  }

  /** How many characters follow the first dot. */
  function FracLength(t: string): nat {
    if |t| == 0 then 0 else if t[0] == '.' then |t| - 1 else FracLength(t[1..])
  }

  /** The exponent group's value, `0` when it is absent. */
  function ExpValue(sci: string): int {
    if |sci| < 2 then 0
    else if sci[1] == '-' then -(DigitsValue(sci[2..]) as int)
    else if sci[1] == '+' then DigitsValue(sci[2..])
    else DigitsValue(sci[1..])
  }

  /** The value of `Decimal(num_part + sci_part)`: all digits read as one
      integer, shifted right by the length of the fraction and left by the
      exponent. */
  function Magnitude(l: Lexeme): real {
    var b := Body(l.number);
    var m := Scale(DigitsValue(DigitsOf(b)) as real, ExpValue(l.sci) - FracLength(b));
    if |l.number| > 0 && l.number[0] == '-' then -m else m
  }

  // ---------------------------------------------------------------------------
  // the value read positionally: integer part plus fraction

  lemma {:induction false} DigitsValueAppend(a: string, b: string)
    ensures DigitsValue(a + b) as real == Scale(DigitsValue(a) as real, |b|) + DigitsValue(b) as real
    decreases |b|
  {
    if |b| == 0 {
      assert a + b == a;
    } else {
      var b' := b[..|b| - 1];
      assert (a + b)[..|a + b| - 1] == a + b';
      DigitsValueAppend(a, b');
      ScaleSucc(DigitsValue(a) as real, |b'|);
    }
  }

  lemma {:induction false} ScaleSum(x: real, y: real, k: int)
    ensures Scale(x + y, k) == Scale(x, k) + Scale(y, k)
    decreases if k >= 0 then k else -k
  {
    if k > 0 {
      ScaleSum(x, y, k - 1);
    } else if k < 0 {
      ScaleSum(x, y, k + 1);
    }
  }

  lemma {:induction false} DigitsOfDigits(t: string)
    requires AllDigits(t)
    ensures DigitsOf(t) == t && FracLength(t) == 0
  {
    if |t| > 0 {
      DigitsOfDigits(t[1..]);
      assert t == [t[0]] + t[1..];
    }
  }

  lemma {:induction false} DigitsOfSplit(i: string, f: string)
    requires AllDigits(i) && AllDigits(f)
    ensures DigitsOf(i + "." + f) == i + f && FracLength(i + "." + f) == |f|
    decreases |i|
  {
    var t := i + "." + f;
    if |i| == 0 {
      assert t == "." + f && t[1..] == f;
      DigitsOfDigits(f);
    } else {
      assert t[1..] == i[1..] + "." + f;
      DigitsOfSplit(i[1..], f);
      assert i + f == [i[0]] + (i[1..] + f);
    }
  }

  lemma PlaceValues(i: string, f: string)
    requires AllDigits(i) && AllDigits(f)
    ensures Scale(DigitsValue(i + f) as real, -|f|)
         == DigitsValue(i) as real + Scale(DigitsValue(f) as real, -|f|)
  {
    var vi, vf := DigitsValue(i) as real, DigitsValue(f) as real;
    var a := Scale(vi, |f|);
    calc {
      Scale(DigitsValue(i + f) as real, -|f|);
    == { DigitsValueAppend(i, f); }
      Scale(a + vf, -|f|);
    == { ScaleSum(a, vf, -|f|); }
      Scale(a, -|f|) + Scale(vf, -|f|);
    == { ScaleInverse(vi, |f|); }
      vi + Scale(vf, -|f|);
    }
  }

  /** Without an exponent, a numeral `I.F` denotes `I + F·10^-|F|`: the
      place-value reading agrees with the single-integer reading of
      `Magnitude`. */
  lemma MagnitudePlaces(l: Lexeme, i: string, f: string)
    requires AllDigits(i) && AllDigits(f) && l.number == i + "." + f && l.sci == ""
    ensures Magnitude(l) == DigitsValue(i) as real + Scale(DigitsValue(f) as real, -|f|)
  {
    MagnitudeDigits(l, i, f);
    PlaceValues(i, f);
  }

  lemma MagnitudeDigits(l: Lexeme, i: string, f: string)
    requires AllDigits(i) && AllDigits(f) && l.number == i + "." + f && l.sci == ""
    ensures Magnitude(l) == Scale(DigitsValue(i + f) as real, -|f|)
  {
    DigitsOfSplit(i, f);
  }

  /** The exponent group shifts the value by that many decimal places. */
  lemma MagnitudeExponent(l: Lexeme)
    ensures Magnitude(l) == Scale(Magnitude(l.(sci := "")), ExpValue(l.sci))
  {
    var b := Body(l.number);
    var v := DigitsValue(DigitsOf(b)) as real;
    ScaleAdd(v, -(FracLength(b) as int), ExpValue(l.sci));
    ScaleNegate(Scale(v, -(FracLength(b) as int)), ExpValue(l.sci));
  }

  lemma {:induction false} ScaleNegate(x: real, k: int)
    ensures Scale(-x, k) == -Scale(x, k)
    decreases if k >= 0 then k else -k
  {
    if k > 0 {
      ScaleNegate(x, k - 1);
    } else if k < 0 {
      ScaleNegate(x, k + 1);
    }
  }

  /** A plain integer numeral denotes its integer. */
  lemma MagnitudeInteger(l: Lexeme, n: nat)
    requires l.sci == "" && l.number == NatToString(n)
    ensures Magnitude(l) == n as real
  {
    NatToStringValue(n);
    DigitsOfDigits(l.number);
  }
}
