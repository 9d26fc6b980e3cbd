/** The pure string handling of src/work_ocr/hotkey_manager.py: the display
    form of a hotkey string and the blank-string guard of its validation.
    Registration and the `keyboard` library's own parser are outside the
    model; the parser is a parameter. */
module Hotkeys {
  import opened Strings

  /** The modifier names `format_hotkey_display` singles out. */
  predicate IsModifier(part: string) {
    part == "ctrl" || part == "alt" || part == "shift" || part == "win" || part == "cmd"
  }

  /** One `+`-separated part, stripped and then capitalised (a modifier), upper
      cased (one character) or capitalised (anything else). All three
      branches agree: the part comes out as its capitalised stripped text. */
  function FormatPart(part: string): (r: string)
    ensures r == Capitalize(Strip(part))
  {
    var p := Strip(part);
    if IsModifier(p) then Capitalize(p)
    else if |p| == 1 then Upper(p)
    else Capitalize(p)
  }

  function FormatParts(parts: seq<string>): (r: seq<string>)
    ensures |r| == |parts|
    ensures forall i :: 0 <= i < |parts| ==> r[i] == FormatPart(parts[i])
  {
    seq(|parts|, i requires 0 <= i < |parts| => FormatPart(parts[i]))
  }

  /** `format_hotkey_display`: an empty string stays empty; otherwise the
      lower-cased string is split at `+`, each part formatted, and the parts
      joined with `+` again. */
  function FormatHotkeyDisplay(s: string): (r: string)
    ensures s == "" ==> r == ""
  {
    if s == "" then "" else Join(FormatParts(Split(Lower(s), '+')), '+')
  }

  // ---------------------------------------------------------------------------
  // case mapping facts

  lemma CaseKeepsPlus(c: char)
    ensures UpperChar(c) == '+' <==> c == '+'
    ensures LowerChar(c) == '+' <==> c == '+'
  {
  }

  lemma CapitalizeExcludesPlus(s: string)
    requires '+' !in s
    ensures '+' !in Capitalize(s)
  {
    if '+' in Capitalize(s) {
      var i :| 0 <= i < |s| && Capitalize(s)[i] == '+';
      CaseKeepsPlus(s[i]);
      assert false;
    }
  }

  lemma LowerConcat(a: string, b: string)
    ensures Lower(a + b) == Lower(a) + Lower(b)
  {
    assert forall i :: 0 <= i < |a + b| ==> Lower(a + b)[i] == (Lower(a) + Lower(b))[i];
  }

  /** Lower-casing a joined string lower-cases every part. */
  lemma {:induction false} LowerJoin(parts: seq<string>)
    ensures Lower(Join(parts, '+')) == Join(LowerParts(parts), '+')
    decreases |parts|
  {
    if |parts| > 1 {
      LowerJoin(parts[1..]);
      assert LowerParts(parts)[1..] == LowerParts(parts[1..]);
      LowerConcat(parts[0] + ['+'], Join(parts[1..], '+'));
      LowerConcat(parts[0], ['+']);
      assert Lower(['+']) == ['+'];
    }
  }

  function LowerParts(parts: seq<string>): (r: seq<string>)
    ensures |r| == |parts|
    ensures forall i :: 0 <= i < |parts| ==> r[i] == Lower(parts[i])
  {
    seq(|parts|, i requires 0 <= i < |parts| => Lower(parts[i]))
  }

  lemma LowerIdempotent(s: string)
    ensures Lower(Lower(s)) == Lower(s)
  {
  }

  /** Lower-casing a stripped string leaves it stripped. */
  lemma StripLower(x: string)
    requires Strip(x) == x
    ensures Strip(Lower(x)) == Lower(x)
  {
    if |x| > 0 {
      assert !IsSpace(x[0]) && !IsSpace(x[|x| - 1]);
      StripOfStripped(Lower(x));
    }
  }

  lemma LowerCapitalize(x: string)
    ensures Lower(Capitalize(x)) == Lower(x)
  {
    var a, b := Lower(Capitalize(x)), Lower(x);
    assert |a| == |b|;
    forall i | 0 <= i < |a|
      ensures a[i] == b[i]
    {
      if i == 0 {
        assert a[0] == LowerChar(UpperChar(x[0]));
      } else {
        assert a[i] == LowerChar(LowerChar(x[i]));
      }
    }
  }

  /** Case mapping of one character ignores an earlier lower-casing. */
  lemma CaseOfLower(c: char)
    ensures UpperChar(LowerChar(c)) == UpperChar(c)
    ensures LowerChar(LowerChar(c)) == LowerChar(c)
  {
  }

  lemma CapitalizeLower(x: string)
    ensures Capitalize(Lower(x)) == Capitalize(x)
  {
    var a, b := Capitalize(Lower(x)), Capitalize(x);
    assert |a| == |b|;
    forall i | 0 <= i < |a|
      ensures a[i] == b[i]
    {
      CaseOfLower(x[i]);
      if i == 0 {
        assert a[0] == UpperChar(LowerChar(x[0]));
      } else {
        assert a[i] == LowerChar(LowerChar(x[i]));
      }
    }
  }

  /** A formatted part formats to itself once lower-cased again. */
  lemma FormatPartStable(p: string)
    ensures FormatPart(Lower(FormatPart(p))) == FormatPart(p)
  {
    var x := Strip(p);
    StripIdempotent(p);
    LowerCapitalize(x);
    StripLower(x);
    CapitalizeLower(x);
  }

  // ---------------------------------------------------------------------------
  // properties

  /** The display string has one part per `+`-separated part of the input,
      each the capitalised, stripped input part, and no part holds a `+`. */
  lemma {:induction false} FormatKeepsParts(s: string)
    requires s != ""
    ensures var parts := Split(Lower(s), '+');
      var shown := Split(FormatHotkeyDisplay(s), '+');
      && |shown| == |parts| == Count(s, '+') + 1
      && forall i :: 0 <= i < |parts| ==> shown[i] == Capitalize(Strip(parts[i]))
  {
    var parts := Split(Lower(s), '+');
    var f := FormatParts(parts);
    forall k | 0 <= k < |f|
      ensures '+' !in f[k]
    {
      StripExcludes(parts[k], '+');
      CapitalizeExcludesPlus(Strip(parts[k]));
    }
    SplitJoin(f, '+');
    LowerCount(s);
  }

  /** `lower` keeps the `+` separators where they are. */
  lemma {:induction false} LowerCount(s: string)
    ensures Count(Lower(s), '+') == Count(s, '+')
    decreases |s|
  {
    if |s| > 0 {
      LowerCount(s[1..]);
      CaseKeepsPlus(s[0]);
      assert Lower(s)[1..] == Lower(s[1..]);
    }
  }

  /** The display form does not depend on the case of the input. */
  lemma FormatIgnoresCase(s: string)
    ensures FormatHotkeyDisplay(Lower(s)) == FormatHotkeyDisplay(s)
  {
    LowerIdempotent(s);
  }

  /** Formatted parts, lower-cased, format back to themselves. */
  lemma FormatPartsStable(parts: seq<string>)
    ensures FormatParts(LowerParts(FormatParts(parts))) == FormatParts(parts)
  {
    var f := FormatParts(parts);
    var g := LowerParts(f);
    forall k | 0 <= k < |f|
      ensures FormatParts(g)[k] == f[k]
    {
      FormatPartStable(parts[k]);
    }
  }

  /** Lower-cased formatted parts hold no `+`. */
  lemma FormattedPlusFree(parts: seq<string>)
    requires forall k :: 0 <= k < |parts| ==> '+' !in parts[k]
    ensures forall k :: 0 <= k < |parts| ==> '+' !in LowerParts(FormatParts(parts))[k]
  {
    var f := FormatParts(parts);
    forall k | 0 <= k < |parts|
      ensures '+' !in LowerParts(f)[k]
    {
      StripExcludes(parts[k], '+');
      CapitalizeExcludesPlus(Strip(parts[k]));
      LowerExcludesPlus(f[k]);
    }
  }

  /** Formatting a display string again changes nothing. */
  lemma FormatIdempotent(s: string)
    ensures FormatHotkeyDisplay(FormatHotkeyDisplay(s)) == FormatHotkeyDisplay(s)
  {
    var r := FormatHotkeyDisplay(s);
    if s != "" && r != "" {
      var parts := Split(Lower(s), '+');
      var f := FormatParts(parts);
      var g := LowerParts(f);
      assert r == Join(f, '+');
      FormattedPlusFree(parts);
      LowerJoin(f);
      assert Lower(r) == Join(g, '+');
      SplitJoin(g, '+');
      assert Split(Lower(r), '+') == g;
      FormatPartsStable(parts);
      assert FormatHotkeyDisplay(r) == Join(FormatParts(g), '+');
    }
  }

  lemma LowerExcludesPlus(s: string)
    requires '+' !in s
    ensures '+' !in Lower(s)
  {
    if '+' in Lower(s) {
      var i :| 0 <= i < |s| && Lower(s)[i] == '+';
      CaseKeepsPlus(s[i]);
      assert false;
    }
  }

  // ---------------------------------------------------------------------------
  // validate_hotkey

  /** `validate_hotkey`: an empty or all-whitespace string is refused before
      the hotkey library is asked; otherwise the library's parser (`accepts`)
      decides. */
  function ValidateHotkey(s: string, accepts: string -> bool): (ok: bool)
    ensures ok <==> (exists i :: 0 <= i < |s| && !IsSpace(s[i])) && accepts(s)
  {
    StripEmptyIffBlank(s);
    if s == "" || Strip(s) == "" then false else accepts(s)
  }

  // ---------------------------------------------------------------------------
  // the cases tests/test_hotkey_manager.py checks

  /** A part made of lower-case letters and digits. */
  predicate Word(w: string) {
    |w| > 0 && forall i :: 0 <= i < |w| ==> 'a' <= w[i] <= 'z' || '0' <= w[i] <= '9'
  }

  lemma LowerWord(w: string)
    requires forall i :: 0 <= i < |w| ==> 'a' <= w[i] <= 'z' || '0' <= w[i] <= '9'
    ensures Lower(w) == w
  {
    assert forall i :: 0 <= i < |w| ==> Lower(w)[i] == w[i];
  }

  lemma WordShown(w: string)
    requires Word(w)
    ensures FormatPart(w) == [UpperChar(w[0])] + w[1..]
  {
    assert !IsSpace(w[0]) && !IsSpace(w[|w| - 1]);
    StripOfStripped(w);
    LowerWord(w[1..]);
  }

  lemma LowerWords(words: seq<string>)
    requires forall k :: 0 <= k < |words| ==> Word(words[k])
    ensures Lower(Join(words, '+')) == Join(words, '+')
    ensures forall k :: 0 <= k < |words| ==> '+' !in words[k]
  {
    forall k | 0 <= k < |words|
      ensures LowerParts(words)[k] == words[k]
    {
      LowerWord(words[k]);
    }
    assert LowerParts(words) == words;
    LowerJoin(words);
  }

  /** A hotkey written as lower-case words joined by `+` shows each word
      formatted, joined by `+`. */
  lemma ShownWords(words: seq<string>)
    requires |words| > 0 && forall k :: 0 <= k < |words| ==> Word(words[k])
    ensures FormatHotkeyDisplay(Join(words, '+')) == Join(FormatParts(words), '+')
  {
    var s := Join(words, '+');
    assert |s| >= |words[0]| > 0;
    LowerWords(words);
    SplitJoin(words, '+');
    assert Split(Lower(s), '+') == words;
  }

  /** The display form of words is the display form of each word. */
  lemma ShownEach(words: seq<string>, shown: seq<string>)
    requires |words| > 0 && |shown| == |words|
    requires forall k :: 0 <= k < |words| ==>
      Word(words[k]) && shown[k] == [UpperChar(words[k][0])] + words[k][1..]
    ensures FormatHotkeyDisplay(Join(words, '+')) == Join(shown, '+')
  {
    ShownWords(words);
    forall k | 0 <= k < |words|
      ensures FormatParts(words)[k] == shown[k]
    {
      WordShown(words[k]);
    }
    assert FormatParts(words) == shown;
  }

  lemma JoinThree(x: string, y: string, z: string)
    ensures Join([x, y, z], '+') == x + ['+'] + y + ['+'] + z
  {
    assert [x, y, z][1..] == [y, z] && [y, z][1..] == [z];
    assert Join([y, z], '+') == y + ['+'] + z;
    assert x + ['+'] + (y + ['+'] + z) == x + ['+'] + y + ['+'] + z;
  }

  /** Three words joined by `+` are shown with each first letter raised. */
  lemma ShownThree(x: string, y: string, z: string, sx: string, sy: string, sz: string)
    requires Word(x) && Word(y) && Word(z)
    requires sx == [UpperChar(x[0])] + x[1..] && sy == [UpperChar(y[0])] + y[1..] && sz == [UpperChar(z[0])] + z[1..]
    ensures FormatHotkeyDisplay(x + ['+'] + y + ['+'] + z) == sx + ['+'] + sy + ['+'] + sz
  {
    JoinThree(x, y, z);
    ShownEach([x, y, z], [sx, sy, sz]);
    JoinThree(sx, sy, sz);
  }

  lemma CtrlAltSShown(c: string, a: string, k: string)
    requires c == "ctrl" && a == "alt" && k == "s"
    ensures FormatHotkeyDisplay(Join([c, a, k], '+')) == "Ctrl+Alt+S"
  {
    assert Word(c) && Word(a) && Word(k);
    var shown := ["Ctrl", "Alt", "S"];
    assert shown[1..] == ["Alt", "S"] && shown[1..][1..] == ["S"];
    assert Join(shown, '+') == "Ctrl+Alt+S";
    assert UpperChar('c') == 'C' && UpperChar('a') == 'A' && UpperChar('s') == 'S';
    assert c[1..] == "trl" && a[1..] == "lt" && k[1..] == "";
    ShownEach([c, a, k], shown);
  }

  lemma ExampleCtrlAltS(s: string)
    requires s == "ctrl+alt+s"
    ensures FormatHotkeyDisplay(s) == "Ctrl+Alt+S"
  {
    var c, a, k := s[..4], s[5..8], s[9..];
    assert s == c + ['+'] + a + ['+'] + k;
    JoinThree(c, a, k);
    assert c == "ctrl" && a == "alt" && k == "s";
    CtrlAltSShown(c, a, k);
  }

  lemma CtrlShiftAParts(c: string, m: string, k: string)
    requires c == "ctrl" && m == "shift" && k == "a"
    ensures Word(c) && Word(m) && Word(k)
    ensures [UpperChar(c[0])] + c[1..] == "Ctrl" && [UpperChar(m[0])] + m[1..] == "Shift"
    ensures [UpperChar(k[0])] + k[1..] == "A"
    ensures "Ctrl" + ['+'] + "Shift" + ['+'] + "A" == "Ctrl+Shift+A"
  {
    assert c[1..] == "trl" && m[1..] == "hift" && k[1..] == "";
  }

  lemma ExampleCtrlShiftA(s: string)
    requires s == "ctrl+shift+a"
    ensures FormatHotkeyDisplay(s) == "Ctrl+Shift+A"
  {
    var c, m, k := s[..4], s[5..10], s[11..];
    assert s == c + ['+'] + m + ['+'] + k;
    assert c == "ctrl" && m == "shift" && k == "a";
    CtrlShiftAParts(c, m, k);
    ShownThree(c, m, k, "Ctrl", "Shift", "A");
  }

  lemma ExampleF1(s: string)
    requires s == "f1"
    ensures FormatHotkeyDisplay(s) == "F1"
  {
    assert Word(s);
    ShownWords([s]);
    WordShown(s);
  }

  lemma ExampleAltF4(s: string)
    requires s == "alt+f4"
    ensures FormatHotkeyDisplay(s) == "Alt+F4"
  {
    var a, f := s[..3], s[4..];
    assert s == a + ['+'] + f;
    assert Word(a) && Word(f);
    var words := [a, f];
    assert words[1..] == [f];
    assert Join(words, '+') == s;
    var shown := ["Alt", "F4"];
    assert shown[1..] == ["F4"];
    assert Join(shown, '+') == "Alt+F4";
    assert a == "alt" && f == "f4";
    assert UpperChar('a') == 'A' && UpperChar('f') == 'F';
    assert a[1..] == "lt" && f[1..] == "4";
    ShownEach(words, shown);
  }

  lemma ValidateBlank(s: string, accepts: string -> bool)
    requires s == "" || s == "   "
    ensures !ValidateHotkey(s, accepts)
  {
  }
}
