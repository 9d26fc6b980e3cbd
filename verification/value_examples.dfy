/** The cases tests/test_postprocess.py checks, derived from the model. A cell
    is a parameter equal to its text; whole numbers are spelled through
    `NatToString`. */
module ValueExamples {
  import opened Outcomes
  import opened Strings
  import opened Powers
  import opened CellSyntax
  import opened Values

  // ---------------------------------------------------------------------------
  // parse_cell

  lemma KiloValue(l: Lexeme)
    requires l == Lexeme("5.1", "", "k", "")
    ensures Magnitude(l) == 5.1
  {
    assert l.number == "5" + "." + "1";
    assert Scale(1.0, -1) == 0.1;
    MagnitudePlaces(l, "5", "1");
  }

  /** A decimal number with a prefix letter. */
  lemma ParseKilo(cell: string)
    requires cell == "5.1k"
    ensures ParseCell(cell) == Numeric(cell, 5.1, "k", "")
  {
    var l := Lexeme("5.1", "", "k", "");
    assert Written(l) == cell && l.number == "5" + "." + "1";
    FractionLexeme(l, "5", "1");
    KiloValue(l);
    ParseWritten(l);
  }

  lemma OhmValue(l: Lexeme)
    requires l == Lexeme("1.2", "", "k", "Ohm")
    ensures Magnitude(l) == 1.2
  {
    assert l.number == "1" + "." + "2";
    assert Scale(2.0, -1) == 0.2;
    MagnitudePlaces(l, "1", "2");
  }

  lemma OhmTail()
    ensures TailOk("k", "Ohm")
  {
    assert IsLetter('O') && IsLetter('h') && IsLetter('m');
  }

  /** A prefix letter followed by a unit. */
  lemma ParseKiloOhm(cell: string)
    requires cell == "1.2kOhm"
    ensures ParseCell(cell) == Numeric(cell, 1.2, "k", "Ohm")
  {
    var l := Lexeme("1.2", "", "k", "Ohm");
    assert Written(l) == cell && l.number == "1" + "." + "2";
    OhmTail();
    FractionLexeme(l, "1", "2");
    OhmValue(l);
    ParseWritten(l);
  }

  lemma ExponentUnitValue(l: Lexeme)
    requires l == Lexeme("1.23", "e-4", "", "V")
    ensures Magnitude(l) == 0.000123
  {
    assert l.number == "1" + "." + "23";
    assert ExpValue("e-4") == -4 by { assert "e-4"[2..] == "4"; }
    assert Scale(23.0, -2) == 0.23;
    assert Scale(1.23, -4) == 0.000123;
    MagnitudePlaces(l.(sci := ""), "1", "23");
    MagnitudeExponent(l);
  }

  /** An exponent group followed by a unit. */
  lemma ParseExponentUnit(cell: string)
    requires cell == "1.23e-4V"
    ensures ParseCell(cell) == Numeric(cell, 0.000123, "", "V")
  {
    var l := Lexeme("1.23", "e-4", "", "V");
    assert Written(l) == cell && l.number == "1" + "." + "23";
    assert SciPart("e-4") by { assert "e-4"[2..] == "4"; }
    FractionLexeme(l, "1", "23");
    ExponentUnitValue(l);
    ParseWritten(l);
  }

  /** Two dots: the pattern matches but `Decimal` refuses the number. */
  lemma ParseTwoDots(cell: string)
    requires cell == "1.2.3"
    ensures ParseCell(cell) == Unparsed(cell)
  {
    var l := Lexeme(cell, "", "", "");
    assert Written(l) == cell;
    assert Count(cell[3..], '.') >= 1 by {
      assert cell[3..][0] == '.';
    }
    assert Count(cell[2..], '.') >= 1 by {
      assert cell[2..][1..] == cell[3..];
    }
    assert Count(cell[1..], '.') >= 2 by {
      assert cell[1..][1..] == cell[2..];
      assert cell[1..][0] == '.';
    }
    assert Count(cell, '.') >= 2;
    assert NumberPart(cell) by {
      assert forall i :: 0 <= i < |cell| ==> IsNumberChar(cell[i]);
    }
    ParseRefused(l);
  }

  /** A number the pattern matches but `Decimal` refuses stays text. */
  lemma ParseRefused(l: Lexeme)
    requires Canonical(l) && !DecimalOk(l.number)
    ensures ParseCell(Written(l)) == Unparsed(Written(l))
  {
    WrittenSpaced(l);
    ParseRefusedNumber(Written(l), l);
  }

  lemma ParseMarker(cell: string)
    requires cell == "-"
    ensures ParseCell(cell) == Special("-")
  {
    StripOfStripped(cell);
  }

  /** `n`, written in decimal with a prefix letter, parses as `n` with that
      prefix. */
  lemma ParseWhole(cell: string, n: nat, prefix: string)
    requires PrefixPart(prefix) && cell == NatToString(n) + prefix
    ensures ParseCell(cell) == Numeric(cell, n as real, prefix, "")
  {
    var l := Lexeme(NatToString(n), "", prefix, "");
    assert Written(l) == cell;
    IntegerLexeme(l, n);
    MagnitudeInteger(l, n);
    ParseWritten(l);
  }

  // ---------------------------------------------------------------------------
  // get_base_value

  lemma MegaValue(l: Lexeme)
    requires l == Lexeme("1.5", "", "M", "")
    ensures Magnitude(l) == 1.5
  {
    assert l.number == "1" + "." + "5";
    assert Scale(5.0, -1) == 0.5;
    MagnitudePlaces(l, "1", "5");
  }

  lemma ParseMega(cell: string)
    requires cell == "1.5M"
    ensures ParseCell(cell) == Numeric(cell, 1.5, "M", "")
  {
    var l := Lexeme("1.5", "", "M", "");
    assert Written(l) == cell && l.number == "1" + "." + "5";
    FractionLexeme(l, "1", "5");
    MegaValue(l);
    ParseWritten(l);
  }

  lemma MegaBase(v: Parsed)
    requires v.Numeric? && v.number == 1.5 && v.prefix == "M"
    ensures Base(v) == 1500000.0
  {
    assert PowerOrZero("M") == 6;
    assert Scale(1.5, 6) == 1500000.0;
  }

  lemma BaseMega(cell: string)
    requires cell == "1.5M"
    ensures BaseValue(ParseCell(cell)) == Some(1500000.0)
  {
    ParseMega(cell);
    MegaBase(ParseCell(cell));
  }

  lemma MicroBase(v: Parsed)
    requires v.Numeric? && v.number == 3.0 && v.prefix == "u"
    ensures Base(v) == 0.000003
  {
    assert PowerOrZero("u") == -6;
    assert Scale(3.0, -6) == 0.000003;
  }

  lemma BaseMicro(cell: string)
    requires cell == NatToString(3) + "u"
    ensures BaseValue(ParseCell(cell)) == Some(0.000003)
  {
    ParseWhole(cell, 3, "u");
    MicroBase(ParseCell(cell));
  }

  // ---------------------------------------------------------------------------
  // apply_threshold

  lemma MicroNanoMilli(v: Parsed)
    requires v.Numeric?
    ensures v.number == 4.0 && v.prefix == "u" ==> Base(v) == 0.000004
    ensures v.number == 5.0 && v.prefix == "n" ==> Base(v) == 0.000000005
    ensures v.number == 5.0 && v.prefix == "u" ==> Base(v) == 0.000005
    ensures v.number == 1.0 && v.prefix == "m" ==> Base(v) == 0.001
  {
    assert PowerOrZero("u") == -6 && PowerOrZero("n") == -9 && PowerOrZero("m") == -3;
    assert Scale(4.0, -6) == 0.000004;
    assert Scale(5.0, -9) == 0.000000005;
    assert Scale(5.0, -6) == 0.000005;
    assert Scale(1.0, -3) == 0.001;
  }

  /** 4u is not below 5n: the value is kept. */
  lemma ThresholdKeeps(cell: string, threshold: string, marker: string)
    requires cell == NatToString(4) + "u" && threshold == NatToString(5) + "n"
    ensures ApplyThreshold(ParseCell(cell), threshold, marker) == ParseCell(cell)
  {
    ParseWhole(cell, 4, "u");
    ParseWhole(threshold, 5, "n");
    MicroNanoMilli(ParseCell(cell));
    MicroNanoMilli(ParseCell(threshold));
  }

  /** 4u is below 5u and below 1m: it is replaced by the marker. */
  lemma ThresholdReplaces(cell: string, threshold: string, marker: string)
    requires cell == NatToString(4) + "u" && marker == "-"
    requires threshold == NatToString(5) + "u" || threshold == NatToString(1) + "m"
    ensures ApplyThreshold(ParseCell(cell), threshold, marker) == Special("-")
  {
    ParseWhole(cell, 4, "u");
    if threshold == NatToString(5) + "u" {
      ParseWhole(threshold, 5, "u");
    } else {
      ParseWhole(threshold, 1, "m");
    }
    MicroNanoMilli(ParseCell(cell));
    MicroNanoMilli(ParseCell(threshold));
    ParseMarker(marker);
  }

  // ---------------------------------------------------------------------------
  // convert_unit

  lemma KiloToMega(v: Parsed)
    requires v.Numeric? && v.number == 1500.0 && v.prefix == "k"
    ensures ConvertUnit(v, "M").number == 1.5
  {
    assert PowerOrZero("k") == 3 && PrefixPower("M") == Some(6);
    assert Scale(1500.0, 3) == 1500000.0 && Scale(1500000.0, -6) == 1.5;
  }

  lemma ConvertKiloToMega(cell: string)
    requires cell == NatToString(1500) + "k"
    ensures ConvertUnit(ParseCell(cell), "M") == Numeric(cell, 1.5, "M", "")
  {
    ParseWhole(cell, 1500, "k");
    KiloToMega(ParseCell(cell));
  }

  lemma MilliValue(l: Lexeme)
    requires l == Lexeme("0.005", "", "", "")
    ensures Magnitude(l) == 0.005
  {
    assert l.number == "0" + "." + "005";
    assert DigitsValue("005") == 5 by { assert "005"[..2] == "00" && "00"[..1] == "0"; }
    assert Scale(5.0, -3) == 0.005;
    MagnitudePlaces(l, "0", "005");
  }

  lemma ParseMilliSource(cell: string)
    requires cell == "0.005"
    ensures ParseCell(cell) == Numeric(cell, 0.005, "", "")
  {
    var l := Lexeme("0.005", "", "", "");
    assert Written(l) == cell && l.number == "0" + "." + "005";
    FractionLexeme(l, "0", "005");
    MilliValue(l);
    ParseWritten(l);
  }

  lemma ToMilli(v: Parsed)
    requires v.Numeric? && v.number == 0.005 && v.prefix == ""
    ensures ConvertUnit(v, "m").number == 5.0
  {
    assert PowerOrZero("") == 0 && PrefixPower("m") == Some(-3);
    assert Scale(0.005, 0) == 0.005 && Scale(0.005, 3) == 5.0;
  }

  lemma ConvertToMilli(cell: string)
    requires cell == "0.005"
    ensures ConvertUnit(ParseCell(cell), "m") == Numeric(cell, 5.0, "m", "")
  {
    ParseMilliSource(cell);
    ToMilli(ParseCell(cell));
  }

  lemma TenthValue(l: Lexeme)
    requires l == Lexeme("0.1", "", "u", "")
    ensures Magnitude(l) == 0.1
  {
    assert l.number == "0" + "." + "1";
    assert Scale(1.0, -1) == 0.1;
    MagnitudePlaces(l, "0", "1");
  }

  lemma ParseTenthMicro(cell: string)
    requires cell == "0.1u"
    ensures ParseCell(cell) == Numeric(cell, 0.1, "u", "")
  {
    var l := Lexeme("0.1", "", "u", "");
    assert Written(l) == cell && l.number == "0" + "." + "1";
    FractionLexeme(l, "0", "1");
    TenthValue(l);
    ParseWritten(l);
  }

  lemma MicroToNano(v: Parsed)
    requires v.Numeric? && v.number == 0.1 && v.prefix == "u"
    ensures ConvertUnit(v, "n").number == 100.0
  {
    assert PowerOrZero("u") == -6 && PrefixPower("n") == Some(-9);
    assert Scale(0.1, -6) == 0.0000001 && Scale(0.0000001, 9) == 100.0;
  }

  lemma ConvertMicroToNano(cell: string)
    requires cell == "0.1u"
    ensures ConvertUnit(ParseCell(cell), "n") == Numeric(cell, 100.0, "n", "")
  {
    ParseTenthMicro(cell);
    MicroToNano(ParseCell(cell));
  }

  // ---------------------------------------------------------------------------
  // sci_to_prefix and to_engineering

  lemma SmallValue(l: Lexeme)
    requires l == Lexeme("0.00123", "", "", "")
    ensures Magnitude(l) == 0.00123
  {
    assert l.number == "0" + "." + "00123";
    SmallDigits("00123");
    SmallScale();
    MagnitudePlaces(l, "0", "00123");
  }

  lemma SmallDigits(f: string)
    requires f == "00123"
    ensures AllDigits(f) && DigitsValue(f) == 123
  {
    var a, b, c, d := f[..1], f[..2], f[..3], f[..4];
    assert DigitsValue(a) == 0 by {
      assert a[..0] == [];
    }
    assert DigitsValue(b) == 0 by {
      assert b[..1] == a;
    }
    assert DigitsValue(c) == 1 by {
      assert c[..2] == b;
    }
    assert DigitsValue(d) == 12 by {
      assert d[..3] == c;
    }
    assert f[..4] == d;
  }

  lemma SmallScale()
    ensures Scale(123.0, -5) == 0.00123
  {
  }

  lemma ParseSmallValue(cell: string)
    requires cell == "0.00123"
    ensures ParseCell(cell) == Numeric(cell, 0.00123, "", "")
  {
    var l := Lexeme("0.00123", "", "", "");
    assert Written(l) == cell && l.number == "0" + "." + "00123";
    FractionLexeme(l, "0", "00123");
    SmallValue(l);
    ParseWritten(l);
  }

  lemma SmallPower()
    ensures BestPower(0.00123) == -3
  {
    assert Pow10(-3) == 0.001 && Pow10(-2) == 0.01;
    TruncLog10Unique(0.00123, -2);
  }

  lemma SmallToMilli(cell: string)
    ensures var v := Numeric(cell, 0.00123, "", "");
      SciToPrefix(v) == Ok(v.(number := 1.23, prefix := "m"))
  {
    var v := Numeric(cell, 0.00123, "", "");
    assert Base(v) == 0.00123 by {
      assert PowerOrZero("") == 0 && Scale(0.00123, 0) == 0.00123;
    }
    SmallPower();
    assert PrefixOf(-3) == Some("m");
    assert ConvertUnit(v, "m") == v.(number := 1.23, prefix := "m") by {
      assert PrefixPower("m") == Some(-3);
      assert Scale(0.00123, 3) == 1.23;
    }
  }

  /** 0.00123 gets the milli prefix and the value 1.23. */
  lemma PrefixForSmallValue(cell: string)
    requires cell == "0.00123"
    ensures SciToPrefix(ParseCell(cell)) == Ok(Numeric(cell, 1.23, "m", ""))
  {
    ParseSmallValue(cell);
    SmallToMilli(cell);
  }

  lemma WholeExponent()
    ensures EngExponentAsWritten(12345.0) == 3 && Scale(12345.0, -3) == 12.345
  {
    assert Pow10(4) == 10000.0 && Pow10(5) == 100000.0;
    FloorLog10Unique(12345.0, 4);
    assert Scale(12345.0, -4) == 1.2345;
    assert !AtLeastRootTen(Significand(12345.0));
  }

  lemma EngineeringParts(v: Parsed, render: Render)
    requires v.Numeric? && v.number == 12345.0 && v.prefix == "" && v.unit == ""
    ensures ToEngineering(v, render) == Ok(render.eng(12.345) + "E+03")
  {
    assert Base(v) == 12345.0 by {
      assert PowerOrZero("") == 0 && Scale(12345.0, 0) == 12345.0;
    }
    WholeExponent();
    assert ExponentText(3) == "+03";
    assert render.eng(12.345) + "E" + "+03" + "" == render.eng(12.345) + "E+03";
  }

  /** 12345 in engineering notation: mantissa 12.345, exponent +03. */
  lemma EngineeringOfWhole(cell: string, render: Render)
    requires cell == NatToString(12345)
    ensures ToEngineering(ParseCell(cell), render) == Ok(render.eng(12.345) + "E+03")
  {
    ParseWhole(cell, 12345, "");
    EngineeringParts(ParseCell(cell), render);
  }

  lemma FiveHundredParts(v: Parsed, render: Render)
    requires v.Numeric? && v.number == 500.0 && v.prefix == "" && v.unit == ""
    ensures ToEngineering(v, render) == Ok(render.eng(0.5) + "E+03")
    ensures ToEngineeringIntended(v, render) == Ok(render.eng(500.0) + "E+00")
  {
    assert Base(v) == 500.0 by {
      assert PowerOrZero("") == 0 && Scale(500.0, 0) == 500.0;
    }
    AsWrittenMantissaBelowOne();
    assert ExponentText(3) == "+03" && ExponentText(0) == "+00";
    assert render.eng(0.5) + "E" + "+03" + "" == render.eng(0.5) + "E+03";
    assert render.eng(500.0) + "E" + "+00" + "" == render.eng(500.0) + "E+00";
  }

  /** 500 in engineering notation: the code writes mantissa 0.5 with exponent
      +03, where the exponent at or below `floor(log10 500)` gives 500E+00. */
  lemma EngineeringOfFiveHundred(cell: string, render: Render)
    requires cell == NatToString(500)
    ensures ToEngineering(ParseCell(cell), render) == Ok(render.eng(0.5) + "E+03")
    ensures ToEngineeringIntended(ParseCell(cell), render) == Ok(render.eng(500.0) + "E+00")
  {
    ParseWhole(cell, 500, "");
    FiveHundredParts(ParseCell(cell), render);
  }
}
