/** The parsed cell value of postprocess.py (`ParsedValue`) and the value
    transforms: threshold replacement, prefix conversion, scientific and
    engineering notation, and choosing the best prefix. Decimal numbers are
    exact reals; rendering a number as text is a caller-supplied function. */
module Values {
  import opened Outcomes
  import opened Strings
  import opened Powers
  import opened CellSyntax

  /** `ParsedValue`: the special marker `-`, a number with its prefix and
      unit, or text that did not parse. Each keeps the stripped cell text. */
  datatype Parsed =
    | Special(original: string)
    | Numeric(original: string, number: real, prefix: string, unit: string)
    | Unparsed(original: string)

  /** `Decimal.to_eng_string()` and `format(x, 'e')`, which the model does not
      spell out. */
  datatype Render = Render(eng: real -> string, sci: real -> string)

  /** The exception `Decimal.log10()` raises for a negative operand. */
  datatype Failure = InvalidOperation

  // ---------------------------------------------------------------------------
  // the prefix table

  /** `PREFIX_TO_POWER`, as a partial map. */
  function PrefixPower(p: string): Option<int> {
    if p == "f" then Some(-15)
    else if p == "p" then Some(-12)
    else if p == "n" then Some(-9)
    else if p == "u" then Some(-6)
    else if p == "m" then Some(-3)
    else if p == "" then Some(0)
    else if p == "k" then Some(3)
    else if p == "M" then Some(6)
    else if p == "G" then Some(9)
    else None
  }

  /** `POWER_TO_PREFIX`: defined exactly on the multiples of three from -15
      to 9. */
  function PrefixOf(k: int): (r: Option<string>)
    ensures r.Some? <==> k % 3 == 0 && -15 <= k <= 9
  {
    if k == -15 then Some("f")
    else if k == -12 then Some("p")
    else if k == -9 then Some("n")
    else if k == -6 then Some("u")
    else if k == -3 then Some("m")
    else if k == 0 then Some("")
    else if k == 3 then Some("k")
    else if k == 6 then Some("M")
    else if k == 9 then Some("G")
    else None
  }

  /** The two tables are inverse to each other. */
  lemma PrefixTables(p: string, k: int)
    ensures PrefixPower(p) == Some(k) <==> PrefixOf(k) == Some(p)
  {
  }

  /** `PREFIX_TO_POWER.get(prefix, 0)`: an unknown prefix counts as none. */
  function PowerOrZero(p: string): int {
    match PrefixPower(p)
    case Some(k) => k
    case None => 0
  }

  // ---------------------------------------------------------------------------
  // ParsedValue

  /** `get_base_value()` for a number: the value with the prefix applied. */
  function Base(v: Parsed): real
    requires v.Numeric?
  {
    Scale(v.number, PowerOrZero(v.prefix))
  }

  /** `get_base_value()`: `None` unless the value is a number. */
  function BaseValue(v: Parsed): (r: Option<real>)
    ensures r.Some? <==> v.Numeric?
  {
    if v.Numeric? then Some(Base(v)) else None
  }

  /** `format()`: the original text unless the value is a number. */
  function Format(v: Parsed, render: Render): string {
    match v
    case Numeric(_, n, p, u) => render.eng(n) + p + u
    case _ => v.original
  }

  lemma FormatOriginal(v: Parsed, render: Render)
    requires !v.Numeric?
    ensures Format(v, render) == v.original
  {
  }

  /** `parse_cell`. */
  function ParseCell(cell: string): (v: Parsed)
    ensures v.original == Strip(cell)
    ensures v.Special? <==> Strip(cell) == "-"
  {
    var st := Strip(cell);
    if st == "-" then Special(st)
    else
      match Lex(st)
      case None => Unparsed(st)
      case Some(l) => if DecimalOk(l.number) then Numeric(st, Magnitude(l), l.prefix, l.unit) else Unparsed(st)
  }

  /** A stripped cell spelling a number with its prefix and unit parses as that
      number, prefix and unit. */
  lemma ParseNumeric(cell: string, l: Lexeme)
    requires Canonical(l) && SpacedAs(Strip(cell), l) && DecimalOk(l.number)
    ensures ParseCell(cell) == Numeric(Strip(cell), Magnitude(l), l.prefix, l.unit)
  {
    LexExact(Strip(cell), l);
  }

  /** A stripped cell the pattern matches but whose number `Decimal` refuses
      stays text. */
  lemma ParseRefusedNumber(cell: string, l: Lexeme)
    requires Canonical(l) && SpacedAs(Strip(cell), l) && !DecimalOk(l.number)
    ensures ParseCell(cell) == Unparsed(Strip(cell))
  {
    LexExact(Strip(cell), l);
  }

  /** The text of a lexeme written without any whitespace. */
  function Written(l: Lexeme): string {
    l.number + l.sci + l.prefix + l.unit
  }

  /** A number written without whitespace parses as itself. */
  lemma ParseWritten(l: Lexeme)
    requires Canonical(l) && DecimalOk(l.number)
    ensures ParseCell(Written(l)) == Numeric(Written(l), Magnitude(l), l.prefix, l.unit)
  {
    WrittenSpaced(l);
    ParseNumeric(Written(l), l);
  }

  lemma WrittenSpaced(l: Lexeme)
    requires Canonical(l)
    ensures Strip(Written(l)) == Written(l) && SpacedAs(Written(l), l)
  {
    WrittenStripped(l);
    WrittenUnspaced(l);
    SpacedAsBy(Written(l), l, "", "", "", "");
  }

  lemma WrittenUnspaced(l: Lexeme)
    ensures Written(l) == Spaced(l, "", "", "", "")
  {
    var e: string := "";
    assert l.unit + e == l.unit;
    assert e + (l.prefix + l.unit) == l.prefix + l.unit;
    assert e + (l.sci + (l.prefix + l.unit)) == l.sci + (l.prefix + l.unit);
    assert e + (l.number + (l.sci + (l.prefix + l.unit))) == l.number + (l.sci + (l.prefix + l.unit));
  }

  lemma WrittenStripped(l: Lexeme)
    requires Canonical(l)
    ensures Strip(Written(l)) == Written(l)
  {
    var w := Written(l);
    assert w[0] == l.number[0];
    WrittenLast(l);
    StripOfStripped(w);
  }

  lemma WrittenLast(l: Lexeme)
    requires Canonical(l)
    ensures !IsSpace(Written(l)[|Written(l)| - 1])
  {
    var w := Written(l);
    var last := w[|w| - 1];
    if |l.unit| > 0 {
      assert last == l.unit[|l.unit| - 1];
    } else if |l.prefix| > 0 {
      assert last == l.prefix[0];
    } else if |l.sci| > 0 {
      assert last == l.sci[|l.sci| - 1];
    } else {
      assert last == l.number[|l.number| - 1];
    }
  }

  /** A natural number in decimal, with an optional prefix letter and a unit,
      parses as that number. */
  lemma ParseInteger(n: nat, prefix: string, unit: string)
    requires TailOk(prefix, unit)
    ensures var w := NatToString(n) + prefix + unit;
      ParseCell(w) == Numeric(w, n as real, prefix, unit)
  {
    var l := Lexeme(NatToString(n), "", prefix, unit);
    assert Written(l) == NatToString(n) + prefix + unit;
    IntegerLexeme(l, n);
    MagnitudeInteger(l, n);
    ParseWritten(l);
  }

  lemma IntegerLexeme(l: Lexeme, n: nat)
    requires l.number == NatToString(n) && l.sci == "" && TailOk(l.prefix, l.unit)
    ensures Canonical(l) && DecimalOk(l.number)
  {
    var d := NatToString(n);
    assert forall i :: 0 <= i < |d| ==> IsNumberChar(d[i]);
    CountZero(d, '.');
    assert IsDigit(d[0]);
  }

  /** Digits, one dot and digits, then an optional exponent group, prefix
      letter and unit, form a number the decimal reader accepts. */
  lemma FractionLexeme(l: Lexeme, i: string, f: string)
    requires |i| > 0 && AllDigits(i) && AllDigits(f) && l.number == i + "." + f
    requires (l.sci == "" || SciPart(l.sci)) && TailOk(l.prefix, l.unit)
    ensures Canonical(l) && DecimalOk(l.number)
  {
    assert forall k :: 0 <= k < |l.number| ==> IsNumberChar(l.number[k]) by {
      assert forall k :: 0 <= k < |l.number| ==> l.number[k] == '.' || (k < |i| && l.number[k] == i[k]) || (k > |i| && l.number[k] == f[k - |i| - 1]);
    }
    CountZero(i, '.');
    CountZero(f, '.');
    CountAppend(i + ".", f, '.');
    CountAppend(i, ".", '.');
    assert IsDigit(l.number[0]);
  }

  /** A negated natural number, with an optional prefix letter and a unit, is
      a number the decimal reader accepts... */
  lemma NegativeLexeme(l: Lexeme, n: nat)
    requires l.number == "-" + NatToString(n) && l.sci == "" && TailOk(l.prefix, l.unit)
    ensures Canonical(l) && DecimalOk(l.number)
  {
    var d := NatToString(n);
    assert l.number[1..] == d;
    assert forall i :: 0 <= i < |d| ==> IsNumberChar(d[i]);
    CountZero(d, '.');
    assert IsDigit(d[0]);
  }

  /** ... and reads as the negated number. */
  lemma NegativeMagnitude(l: Lexeme, n: nat)
    requires l.number == "-" + NatToString(n) && l.sci == ""
    ensures Magnitude(l) == -(n as real)
  {
    var d := NatToString(n);
    assert l.number[1..] == d;
    MagnitudeNegative(l);
    MagnitudeInteger(l.(number := d), n);
  }

  /** A leading minus sign negates the value. */
  lemma MagnitudeNegative(l: Lexeme)
    requires |l.number| > 1 && l.number[0] == '-' && l.number[1] != '-'
    ensures Magnitude(l) == -Magnitude(l.(number := l.number[1..]))
  {
  }

  /** The stripped cell text spells the number `l`, in the syntax and decimal
      form `parse_cell` accepts. */
  ghost predicate Spells(st: string, l: Lexeme) {
    Canonical(l) && SpacedAs(st, l) && DecimalOk(l.number)
  }

  /** A cell is left unparsed exactly when it is not the marker and does not
      spell a number. */
  lemma ParseUnparsed(cell: string)
    ensures ParseCell(cell).Unparsed? <==> Strip(cell) != "-" && forall l :: !Spells(Strip(cell), l)
  {
    var st := Strip(cell);
    if ParseCell(cell).Unparsed? {
      forall l | Spells(st, l)
        ensures false
      {
        ParseNumeric(cell, l);
      }
    } else if st != "-" {
      UnparsedWitness(cell);
    }
  }

  lemma UnparsedWitness(cell: string)
    requires ParseCell(cell).Numeric?
    ensures Spells(Strip(cell), Lex(Strip(cell)).value)
  {
    LexExact(Strip(cell), Lex(Strip(cell)).value);
  }

  /** The prefix and unit of a number are a prefix letter and ASCII letters,
      as the cell grammar admits them. */
  predicate TableParts(v: Parsed) {
    v.Numeric? ==> PrefixPart(v.prefix) && All(v.unit, IsLetter)
  }

  lemma ParseParts(cell: string)
    ensures TableParts(ParseCell(cell))
  {
    var v := ParseCell(cell);
    if v.Numeric? {
      var l := Lex(Strip(cell)).value;
      UnparsedWitness(cell);
      assert v.prefix == l.prefix && v.unit == l.unit;
    }
  }

  // ---------------------------------------------------------------------------
  // threshold

  /** The value is a number whose base value is strictly below that of the
      threshold, which is itself a number. */
  predicate Below(v: Parsed, threshold: string) {
    var t := ParseCell(threshold);
    v.Numeric? && t.Numeric? && Base(v) < Base(t)
  }

  /** `apply_threshold`. */
  function ApplyThreshold(v: Parsed, threshold: string, replaceWith: string): (r: Parsed)
    ensures Below(v, threshold) ==> r == ParseCell(replaceWith)
    ensures !Below(v, threshold) ==> r == v
  {
    if !v.Numeric? then v
    else
      var t := ParseCell(threshold);
      if !t.Numeric? then v
      else if Base(v) < Base(t) then ParseCell(replaceWith)
      else v
  }

  /** Thresholding twice is thresholding once: a replacement that is itself
      below the threshold is replaced by itself. */
  lemma ThresholdIdempotent(v: Parsed, threshold: string, replaceWith: string)
    ensures ApplyThreshold(ApplyThreshold(v, threshold, replaceWith), threshold, replaceWith)
         == ApplyThreshold(v, threshold, replaceWith)
  {
  }

  /** The decision depends on the base value only, not on how the number is
      written. */
  lemma ThresholdByBase(v: Parsed, w: Parsed, threshold: string)
    requires v.Numeric? && w.Numeric? && Base(v) == Base(w)
    ensures Below(v, threshold) <==> Below(w, threshold)
  {
  }

  // ---------------------------------------------------------------------------
  // prefix conversion

  /** `convert_unit`: re-expresses a number with the target prefix, keeping its
      base value; anything else, or an unknown target, is left alone. */
  function ConvertUnit(v: Parsed, target: string): (r: Parsed)
    ensures !v.Numeric? || PrefixPower(target).None? ==> r == v
    ensures v.Numeric? && PrefixPower(target).Some? ==>
      && r.Numeric? && r.original == v.original && r.unit == v.unit
      && r.prefix == target && Base(r) == Base(v)
    ensures TableParts(v) ==> TableParts(r)
  {
    if v.Numeric? && PrefixPower(target).Some? then
      var k := PrefixPower(target).value;
      ScaleAdd(Base(v), -k, k);
      v.(number := Scale(Base(v), -k), prefix := target)
    else v
  }

  /** Converting to another prefix and back restores the value exactly. */
  lemma ConvertRoundTrip(v: Parsed, target: string)
    requires v.Numeric? && PrefixPower(target).Some? && PrefixPower(v.prefix).Some?
    ensures ConvertUnit(ConvertUnit(v, target), v.prefix) == v
  {
    var k := PrefixPower(v.prefix).value;
    var w := ConvertUnit(v, target);
    ScaleAdd(v.number, k, -k);
    assert Scale(Base(w), -k) == v.number;
  }

  /** Converting twice is converting once to the second prefix. */
  lemma ConvertTwice(v: Parsed, p1: string, p2: string)
    requires PrefixPower(p1).Some? && PrefixPower(p2).Some?
    ensures ConvertUnit(ConvertUnit(v, p1), p2) == ConvertUnit(v, p2)
  {
  }

  // ---------------------------------------------------------------------------
  // notation

  function Pad2(s: string): (r: string)
    ensures |s| > 0 ==> |r| >= 2
  {
    if |s| < 2 then "0" + s else s
  }

  /** `f"{power:+03}"`: an explicit sign, then at least two digits. */
  function ExponentText(p: int): (t: string)
    ensures |t| >= 3
  {
    var a := if p < 0 then -p else p;
    (if p < 0 then "-" else "+") + Pad2(NatToString(a))
  }

  /** The exponent text reads back as the exponent, and its width is that of
      `{:+03}`: three characters below ten, otherwise the sign and the digits
      of the magnitude with no leading zero. */
  lemma ExponentTextValue(p: int)
    ensures var t := ExponentText(p); var a := if p < 0 then -p else p;
      && (t[0] == '-' <==> p < 0) && (t[0] == '+' <==> p >= 0)
      && AllDigits(t[1..]) && DigitsValue(t[1..]) == a
      && (a < 10 ==> |t| == 3)
      && (a >= 10 ==> t[1] != '0' && TenTo(|t| - 2) <= a < TenTo(|t| - 1))
  {
    var a := if p < 0 then -p else p;
    var d := NatToString(a);
    NatToStringValue(a);
    NatToStringDigits(a);
    if |d| < 2 {
      LeadingZero(d);
    }
    assert ExponentText(p)[1..] == Pad2(d);
  }

  /** `to_scientific`. */
  function ToScientific(v: Parsed, render: Render): string {
    if v.Numeric? then render.sci(Base(v)) + v.unit else v.original
  }

  /** Scaled down by a power within a few of its `floor(log10)`, a positive
      number lands between the matching powers of ten, and scales back. */
  lemma ScaledBracket(x: real, p: int)
    requires x > 0.0
    ensures var f := FloorLog10(x);
      Pow10(f - p) <= Scale(x, -p) < Pow10(f + 1 - p) && Scale(Scale(x, -p), p) == x
  {
    var f := FloorLog10(x);
    ScaleOne(f);
    ScaleOne(f + 1);
    ScaleMonotone(Pow10(f), x, -p);
    ScaleMonotone(x, Pow10(f + 1), -p);
    ScaleAdd(1.0, f, -p);
    ScaleAdd(1.0, f + 1, -p);
    ScaleOne(f - p);
    ScaleOne(f + 1 - p);
    ScaleAdd(x, -p, p);
  }

  lemma Pow10Literals()
    ensures Pow10(-1) == 0.1 && Pow10(0) == 1.0 && Pow10(3) == 1000.0
  {
    assert Pow10(1) == 10.0 && Pow10(2) == 100.0;
  }

  /** The exponent `to_engineering` evidently means: the multiple of three at
      or below `floor(log10 x)`. */
  function EngExponent(x: real): (p: int)
    requires x > 0.0
    ensures p % 3 == 0 && p <= FloorLog10(x) < p + 3
  {
    3 * (FloorLog10(x) / 3)
  }

  /** The engineering mantissa lies in `[1, 1000)`. */
  lemma EngMantissa(x: real)
    requires x > 0.0
    ensures var p := EngExponent(x);
      1.0 <= Scale(x, -p) < 1000.0 && Scale(Scale(x, -p), p) == x
  {
    var p := EngExponent(x);
    var f := FloorLog10(x);
    ScaledBracket(x, p);
    Pow10Literals();
    Pow10Order(0, f - p);
    Pow10Order(f + 1 - p, 3);
  }

  /** The exponent as postprocess.py computes it: `log10` rounded to the
      nearest integer, then floored to a multiple of three. */
  function EngExponentAsWritten(x: real): (p: int)
    requires x > 0.0
    ensures p % 3 == 0 && p <= RoundLog10(x) < p + 3
  {
    3 * (RoundLog10(x) / 3)
  }

  /** Under the code's exponent the mantissa still scales back to the value,
      but it only lies in `[0.1, 1000)`. */
  lemma AsWrittenMantissa(x: real)
    requires x > 0.0
    ensures var p := EngExponentAsWritten(x);
      0.1 <= Scale(x, -p) < 1000.0 && Scale(Scale(x, -p), p) == x
  {
    var p := EngExponentAsWritten(x);
    var f := FloorLog10(x);
    ScaledBracket(x, p);
    Pow10Literals();
    Pow10Order(-1, f - p);
    Pow10Order(f + 1 - p, 3);
  }

  /** `to_engineering`, as postprocess.py computes it. Text and the marker
      pass through, zero is written plainly, and a negative base value makes
      `log10` raise; a positive one is written as a mantissa, `E` and a
      signed exponent that is a multiple of three, the mantissa times ten to
      the exponent being the value. */
  function ToEngineering(v: Parsed, render: Render): (r: Result<string, Failure>)
    ensures r.Err? <==> v.Numeric? && Base(v) < 0.0
    ensures !v.Numeric? ==> r == Ok(v.original)
    ensures v.Numeric? && Base(v) == 0.0 ==> r == Ok("0" + v.unit)
    ensures v.Numeric? && Base(v) > 0.0 ==>
      var p := EngExponentAsWritten(Base(v));
      var m := Scale(Base(v), -p);
      && p % 3 == 0 && Scale(m, p) == Base(v) && 0.1 <= m < 1000.0
      && r == Ok(render.eng(m) + "E" + ExponentText(p) + v.unit)
  {
    if !v.Numeric? then Ok(v.original)
    else
      var b := Base(v);
      if b == 0.0 then Ok("0" + v.unit)
      else if b < 0.0 then Err(InvalidOperation)
      else
        var p := EngExponentAsWritten(b);
        AsWrittenMantissa(b);
        Ok(render.eng(Scale(b, -p)) + "E" + ExponentText(p) + v.unit)
  }

  /** `to_engineering` with the exponent chosen as `EngExponent`, which keeps
      the mantissa in `[1, 1000)`. */
  function ToEngineeringIntended(v: Parsed, render: Render): (r: Result<string, Failure>)
    ensures r.Err? <==> v.Numeric? && Base(v) < 0.0
    ensures !v.Numeric? ==> r == Ok(v.original)
    ensures v.Numeric? && Base(v) == 0.0 ==> r == Ok("0" + v.unit)
    ensures v.Numeric? && Base(v) > 0.0 ==>
      var p := EngExponent(Base(v));
      var m := Scale(Base(v), -p);
      && p % 3 == 0 && Scale(m, p) == Base(v) && 1.0 <= m < 1000.0
      && r == Ok(render.eng(m) + "E" + ExponentText(p) + v.unit)
  {
    if !v.Numeric? then Ok(v.original)
    else
      var b := Base(v);
      if b == 0.0 then Ok("0" + v.unit)
      else if b < 0.0 then Err(InvalidOperation)
      else
        var p := EngExponent(b);
        EngMantissa(b);
        Ok(render.eng(Scale(b, -p)) + "E" + ExponentText(p) + v.unit)
  }

  /** Rounding first lets the mantissa drop below one: 500 is written with
      exponent 3 and mantissa 0.5. */
  lemma AsWrittenMantissaBelowOne()
    ensures EngExponentAsWritten(500.0) == 3 && Scale(500.0, -3) == 0.5
    ensures EngExponent(500.0) == 0
  {
    assert Pow10(2) == 100.0 && Pow10(3) == 1000.0;
    FloorLog10Unique(500.0, 2);
    assert Scale(500.0, -2) == 5.0;
    assert Significand(500.0) == 5.0;
  }

  /** The two exponents differ exactly when the significand is at least √10 and
      `floor(log10 x)` is two more than a multiple of three. */
  lemma AsWrittenDiffers(x: real)
    requires x > 0.0
    ensures EngExponentAsWritten(x) != EngExponent(x) <==>
      AtLeastRootTen(Significand(x)) && FloorLog10(x) % 3 == 2
  {
  }

  // ---------------------------------------------------------------------------
  // choosing a prefix

  /** Python's `round(p / 3)`; a third is never half way, so this is the
      nearest integer. */
  function RoundThird(p: int): (q: int)
    ensures 3 * q - 1 <= p <= 3 * q + 1
  {
    (p + 1) / 3
  }

  function Clamp(k: int, lo: int, hi: int): (r: int)
    requires lo <= hi
    ensures lo <= r <= hi
    ensures lo <= k <= hi ==> r == k
  {
    if k > hi then hi else if k < lo then lo else k
  }

  /** The power of the prefix `sci_to_prefix` picks for a positive base value:
      the multiple of three nearest to `int(log10 x)`, limited to femto..giga. */
  function BestPower(x: real): (k: int)
    requires x > 0.0
    ensures k % 3 == 0 && -15 <= k <= 9
    ensures -15 < k < 9 ==> k - 1 <= TruncLog10(x) <= k + 1
    ensures k == 9 <==> TruncLog10(x) >= 8
    ensures k == -15 <==> TruncLog10(x) <= -14
  {
    Clamp(3 * RoundThird(TruncLog10(x)), -15, 9)
  }

  /** `sci_to_prefix`: a number gets the prefix of `BestPower`, a zero the
      empty prefix; a negative base value makes `log10` raise. */
  function SciToPrefix(v: Parsed): (r: Result<Parsed, Failure>)
    ensures r.Err? <==> v.Numeric? && Base(v) < 0.0
    ensures !v.Numeric? ==> r == Ok(v)
    ensures v.Numeric? && r.Ok? ==>
      && r.value.Numeric? && r.value.original == v.original && r.value.unit == v.unit
      && Base(r.value) == Base(v)
      && (Base(v) == 0.0 ==> r.value.prefix == "")
      && (Base(v) > 0.0 ==> PrefixPower(r.value.prefix) == Some(BestPower(Base(v))))
    ensures r.Ok? && TableParts(v) ==> TableParts(r.value)
  {
    if !v.Numeric? then Ok(v)
    else
      var b := Base(v);
      if b == 0.0 then
        ScaleMonotone(0.0, 0.0, 0);
        Ok(v.(number := 0.0, prefix := ""))
      else if b < 0.0 then Err(InvalidOperation)
      else
        match PrefixOf(BestPower(b))
        case Some(p) =>
          PrefixTables(p, BestPower(b));
          Ok(ConvertUnit(v, p))
        case None => Ok(v)
  }
}
