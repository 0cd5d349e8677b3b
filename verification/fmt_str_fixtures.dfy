/** The fixed input/output pairs the formatter and parsers are held to,
    each derived from the definitions step by step. */
module FmtStrFixtures {
  import opened Wrappers
  import opened Text
  import opened FmtStr
  import opened FmtStrLaws

  // ==================================================================
  // Grouped numbers

  lemma DigitsOf1234567()
    ensures NatToDigits(123) == "123" && NatToDigits(1234) == "1234"
    ensures NatToDigits(1234567) == "1234567"
  {
    assert NatToDigits(12) == NatToDigits(1) + [DigitChar(2)] == "12";
    assert NatToDigits(123) == NatToDigits(12) + [DigitChar(3)] == "123";
    assert NatToDigits(1234) == NatToDigits(123) + [DigitChar(4)] == "1234";
    assert NatToDigits(12345) == NatToDigits(1234) + [DigitChar(5)] == "12345";
    assert NatToDigits(123456) == NatToDigits(12345) + [DigitChar(6)] == "123456";
    assert NatToDigits(1234567) == NatToDigits(123456) + [DigitChar(7)] == "1234567";
  }

  lemma GroupOf1234567()
    ensures Group3("123") == "123"
    ensures Group3("1234") == "1,234"
    ensures Group3("1234567") == "1,234,567"
  {
    var d: string := "1234567";
    assert d[..|d| - 3] == "1234" && d[|d| - 3..] == "567";
    var e: string := "1234";
    assert e[..|e| - 3] == "1" && e[|e| - 3..] == "234";
  }

  lemma GroupedOf1234()
    ensures FormatNr(1234) == "1,234"
  {
    DigitsOf1234567();
    var e: string := "1234";
    assert e[..|e| - 3] == "1" && e[|e| - 3..] == "234";
  }

  /** `format_nr` groups digits in threes from the right. */
  lemma FormatNrFixtures()
    ensures FormatNr(123) == "123"
    ensures FormatNr(1234) == "1,234"
    ensures FormatNr(1234567) == "1,234,567"
  {
    DigitsOf1234567();
    GroupOf1234567();
  }

  lemma NoCommas(b: string)
    requires ',' !in b
    ensures StripCommas(b) == b
  {
    FilterKeepsAll(NotComma, b);
  }

  /** A comma after a comma-free text is dropped. */
  lemma DropComma(a: string, b: string)
    requires ',' !in a
    ensures StripCommas(a + "," + b) == a + StripCommas(b)
  {
    assert a + "," + b == a + ("," + b);
    FilterAppend(NotComma, a, "," + b);
    FilterAppend(NotComma, ",", b);
    NoCommas(a);
    assert Filter(NotComma, ",") == [];
  }

  lemma DecimalOf1234567()
    ensures DecimalValue("1234", "567") == 1234.567
  {
    DigitsOf1234567();
    DigitsRoundTrip(1234);
    var b: string := "567";
    assert Fraction(b[2..]) == 0.7;
    assert Fraction(b[1..]) == 0.67;
  }

  /** `text_to_nr` on plain and grouped integers. */
  lemma TextToNrIntFixtures()
    ensures TextToNr("12") == Ok(IntNr(12))
    ensures TextToNr("1,234") == Ok(IntNr(1234))
    ensures TextToNr("1,234,567") == Ok(IntNr(1234567))
  {
    assert NatToDigits(12) == NatToDigits(1) + [DigitChar(2)] == "12";
    DigitsRead(12);
    FormatNrFixtures();
    FormatNrRoundTrip(1234);
    FormatNrRoundTrip(1234567);
  }

  /** Text whose comma-free form is `a.b` reads as that fraction. */
  lemma ReadsAsFraction(s: string, a: string, b: string)
    requires |a| >= 1 && AllDigits(a) && AllDigits(b)
    requires StripCommas(s) == a + "." + b
    ensures TextToNr(s).Ok? && NumberValue(TextToNr(s).value) == DecimalValue(a, b)
  {
    DecimalRead(a, b);
    TextToNrIgnoresCommas(s);
  }

  /** `text_to_nr` reads a grouped number with a '.' as a fraction. */
  lemma TextToNrFractionFixture()
    ensures TextToNr("1,234.567").Ok? && NumberValue(TextToNr("1,234.567").value) == 1234.567
  {
    var n := "1" + "," + "234" + "." + "567";
    assert n == "1,234.567";
    assert "1" + "234" == "1234";
    DecimalOf1234567();
    GroupedDecimalRead("1", "234", "567");
  }

  // ==================================================================
  // Byte sizes

  lemma Pow1024Values()
    ensures Pow1024(1) == 0x400 && Pow1024(2) == 0x10_0000 && Pow1024(3) == 0x4000_0000
    ensures Pow1024(4) == 0x100_0000_0000 && Pow1024(5) == 0x4_0000_0000_0000
    ensures Pow1024(6) == 0x1000_0000_0000_0000
  {
  }

  /** A fixture of the form `<digits> <unit>`. */
  lemma BytesOfText(text: string, n: nat, u: string, e: nat)
    requires ByteUnitExponent(u) == Ok(e)
    requires text == NatToDigits(n) + " " + u
    ensures TextToBytes(text) == Ok(Clamp(n * Pow1024(e)))
  {
    BytesOfUnit(n, u, e);
  }

  /** `2 K` and `2 KiB` are both 2048 bytes, and likewise up the powers
      of 1024. */
  lemma TwoKibibytes()
    ensures TextToBytes("2 K") == Ok(2048) && TextToBytes("2 KiB") == Ok(2048)
  {
    Pow1024Values();
    assert NatToDigits(2) == "2";
    BytesOfText("2 K", 2, "K", 1);
    assert "2 " + ['K'] == "2 K" && "2 " + ['K'] + "iB" == "2 KiB";
    ByteUnitSynonyms("2 ", 'K');
  }

  /** Two of a unit, written with the letter alone or with "iB". */
  lemma TwoOfUnit(letter: char, e: nat, v: nat)
    requires letter in "KMGTPE" && ByteUnitExponent([letter]) == Ok(e)
    requires Pow1024(e) == v && 2 * v <= ULONG_MAX
    ensures TextToBytes("2 " + [letter]) == Ok(2 * v)
    ensures TextToBytes("2 " + [letter] + "iB") == Ok(2 * v)
  {
    assert NatToDigits(2) == "2";
    BytesOfText("2 " + [letter], 2, [letter], e);
    ByteUnitSynonyms("2 ", letter);
  }

  lemma TwoMebibytes()
    ensures TextToBytes("2 M") == Ok(2 * 0x10_0000) && TextToBytes("2 MiB") == Ok(2 * 0x10_0000)
  {
    assert Pow1024(2) == 0x10_0000 by { Pow1024Values(); }
    TwoOfUnit('M', 2, 0x10_0000);
    assert "2 " + ['M'] == "2 M" && "2 " + ['M'] + "iB" == "2 MiB";
  }

  lemma TwoGibibytes()
    ensures TextToBytes("2 G") == Ok(2 * 0x4000_0000) && TextToBytes("2 GiB") == Ok(2 * 0x4000_0000)
  {
    assert Pow1024(3) == 0x4000_0000 by { Pow1024Values(); }
    TwoOfUnit('G', 3, 0x4000_0000);
    assert "2 " + ['G'] == "2 G" && "2 " + ['G'] + "iB" == "2 GiB";
  }

  lemma TwoTebibytes()
    ensures TextToBytes("2 T") == Ok(2 * 0x100_0000_0000) && TextToBytes("2 TiB") == Ok(2 * 0x100_0000_0000)
  {
    assert Pow1024(4) == 0x100_0000_0000 by { Pow1024Values(); }
    TwoOfUnit('T', 4, 0x100_0000_0000);
    assert "2 " + ['T'] == "2 T" && "2 " + ['T'] + "iB" == "2 TiB";
  }

  lemma TwoPebibytes()
    ensures TextToBytes("2 P") == Ok(2 * 0x4_0000_0000_0000) && TextToBytes("2 PiB") == Ok(2 * 0x4_0000_0000_0000)
  {
    assert Pow1024(5) == 0x4_0000_0000_0000 by { Pow1024Values(); }
    TwoOfUnit('P', 5, 0x4_0000_0000_0000);
    assert "2 " + ['P'] == "2 P" && "2 " + ['P'] + "iB" == "2 PiB";
  }

  /** A count without a suffix, or with `B`, is raw bytes. */
  lemma BytesPlainFixture()
    ensures TextToBytes("123") == Ok(123)
  {
    DigitsOf1234567();
    GroupOf1234567();
    BytesOfGrouped(123);
  }

  lemma BytesSuffixBFixture()
    ensures TextToBytes("123 B") == Ok(123)
  {
    var n := "123";
    assert n + " " + "B" == "123 B";
    DigitsOf1234567();
    DigitsRead(123);
    BytesOfSpacedUnit(n, "B", 0);
    assert ScaledFloor(IntNr(123), 1) == 123;
  }

  /** Whitespace after a number does not change its reading. */
  lemma SpaceAfterNumber(x: string)
    ensures SameReading(TextToNr(x + " "), TextToNr(x))
  {
    FilterAppend(NotComma, x, " ");
    assert StripCommas(" ") == " ";
    StripTrailingSpace(StripCommas(x));
    SameCleanText(x + " ", x);
  }

  /** A number and a possibly empty unit, in bytes, through the number read. */
  lemma ScaledBytesOfValue(number: string, unit: string, e: nat)
    requires (if unit == [] then Ok(0) else ByteUnitExponent(unit)) == Ok(e)
    requires TextToNr(number).Ok?
    ensures ScaledBytes(number, unit) == Ok(Clamp(ScaledFloor(TextToNr(number).value, Pow1024(e))))
  {
  }

  lemma UnitLetters(u: string, e: nat)
    requires ByteUnitExponent(u) == Ok(e)
    ensures |u| >= 1 && forall i :: 0 <= i < |u| ==> IsLetter(u[i])
  {
  }

  /** `<number> <unit>` is the number read times the unit, truncated and
      clamped. */
  lemma BytesOfSpacedUnit(number: string, u: string, e: nat)
    requires ByteUnitExponent(u) == Ok(e)
    requires TextToNr(number).Ok?
    ensures TextToBytes(number + " " + u) == Ok(Clamp(ScaledFloor(TextToNr(number).value, Pow1024(e))))
  {
    UnitLetters(u, e);
    var p := number + " ";
    assert number + " " + u == p + u;
    assert (p + u)[|number|] == ' ';
    BytesSplit(p, u);
    SpaceAfterNumber(number);
    ScaledBytesOfValue(p, u, e);
  }

  /** A number ending in a digit, without a unit, is the number read,
      truncated and clamped. */
  lemma BytesOfUnitless(number: string)
    requires number != [] && IsDigit(number[|number| - 1])
    requires TextToNr(number).Ok?
    ensures TextToBytes(number) == Ok(Clamp(ScaledFloor(TextToNr(number).value, 1)))
  {
    assert number + [] == number;
    BytesSplit(number, []);
    ScaledBytesOfValue(number, [], 0);
  }

  /** `a,b.c` reads as the fraction `ab.c`. */
  lemma GroupedDecimalRead(a: string, b: string, c: string)
    requires |a| >= 1 && AllDigits(a) && AllDigits(b) && AllDigits(c)
    ensures TextToNr(a + "," + b + "." + c).Ok?
    ensures NumberValue(TextToNr(a + "," + b + "." + c).value) == DecimalValue(a + b, c)
  {
    var rest := b + "." + c;
    assert a + "," + b + "." + c == a + "," + rest;
    assert forall i :: 0 <= i < |rest| ==> rest[i] != ',';
    DropComma(a, rest);
    NoCommas(rest);
    assert a + rest == (a + b) + "." + c;
    assert AllDigits(a + b);
    ReadsAsFraction(a + "," + rest, a + b, c);
  }

  /** `a,b.c,d` reads as the fraction `ab.cd`: commas count after the '.' too. */
  lemma TwiceGroupedDecimalRead(a: string, b: string, c: string, d: string)
    requires |a| >= 1 && AllDigits(a) && AllDigits(b) && AllDigits(c) && AllDigits(d)
    ensures TextToNr(a + "," + b + "." + c + "," + d).Ok?
    ensures NumberValue(TextToNr(a + "," + b + "." + c + "," + d).value) == DecimalValue(a + b, c + d)
  {
    var mid := b + "." + c;
    assert forall i :: 0 <= i < |mid| ==> mid[i] != ',';
    assert a + "," + b + "." + c + "," + d == a + "," + (mid + "," + d);
    DropComma(a, mid + "," + d);
    DropComma(mid, d);
    NoCommas(d);
    assert a + (mid + d) == (a + b) + "." + (c + d);
    assert AllDigits(a + b) && AllDigits(c + d);
    ReadsAsFraction(a + "," + b + "." + c + "," + d, a + b, c + d);
  }

  lemma DecimalOf1234457()
    ensures DecimalValue("1234", "457") == 1234.457
  {
    DigitsOf1234567();
    DigitsRoundTrip(1234);
    var b: string := "457";
    assert Fraction(b[2..]) == 0.7;
    assert Fraction(b[1..]) == 0.57;
  }

  /** A fraction of a byte is truncated. */
  lemma BytesTruncateFixture()
    ensures TextToBytes("1,234.457") == Ok(1234)
  {
    var s := "1" + "," + "234" + "." + "457";
    GroupedDecimalRead("1", "234", "457");
    assert "1" + "234" == "1234";
    DecimalOf1234457();
    var x := TextToNr(s).value;
    assert NumberValue(x) == 1234.457;
    assert s == "1,234.457";
    BytesOfUnitless(s);
    assert ScaledFloor(x, 1) == 1234;
  }

  /** A fractional count of a unit is truncated only after scaling:
      1234.457 GiB is 1325488110829.568 bytes, read as 1325488110829. */
  lemma BytesFractionGFixture()
    ensures TextToBytes("1,234.457 G") == Ok(1325488110829)
  {
    var n := "1" + "," + "234" + "." + "457";
    assert n + " " + "G" == "1,234.457 G";
    assert TextToNr(n).Ok? && NumberValue(TextToNr(n).value) == 1234.457 by {
      GroupedDecimalRead("1", "234", "457");
      assert "1" + "234" == "1234";
      DecimalOf1234457();
    }
    var x := TextToNr(n).value;
    assert TextToBytes(n + " " + "G") == Ok(Clamp(ScaledFloor(x, 0x4000_0000))) by {
      Pow1024Values();
      BytesOfSpacedUnit(n, "G", 3);
    }
    assert ScaledFloor(x, 0x4000_0000) == 1325488110829;
  }

  lemma BytesFractionGiBFixture()
    ensures TextToBytes("1,234.457 GiB") == Ok(1325488110829)
  {
    var p := "1,234.457 ";
    assert p + ['G'] == "1,234.457 G" && p + ['G'] + "iB" == "1,234.457 GiB";
    BytesFractionGFixture();
    ByteUnitSynonyms(p, 'G');
  }

  /** A whole number written with a fraction counts the same. */
  lemma BytesTwoPointZeroPFixture()
    ensures TextToBytes("2.0 PiB") == Ok(2 * 0x4_0000_0000_0000)
  {
    var n := "2" + "." + "0";
    assert n + " " + "PiB" == "2.0 PiB";
    assert TextToNr(n) == Ok(FloatNr(2.0)) by {
      DecimalRead("2", "0");
      assert DecimalValue("2", "0") == 2.0;
    }
    assert Pow1024(5) == 0x4_0000_0000_0000 by {
      Pow1024Values();
    }
    BytesOfSpacedUnit(n, "PiB", 5);
    assert ScaledFloor(FloatNr(2.0), 0x4_0000_0000_0000) == 2 * 0x4_0000_0000_0000;
  }

  lemma BytesTwoPointZeroEFixture()
    ensures TextToBytes("2.0 EiB") == Ok(2 * 0x1000_0000_0000_0000)
  {
    var n := "2" + "." + "0";
    assert n + " " + "EiB" == "2.0 EiB";
    assert TextToNr(n) == Ok(FloatNr(2.0)) by {
      DecimalRead("2", "0");
      assert DecimalValue("2", "0") == 2.0;
    }
    assert Pow1024(6) == 0x1000_0000_0000_0000 by {
      Pow1024Values();
    }
    BytesOfSpacedUnit(n, "EiB", 6);
    assert ScaledFloor(FloatNr(2.0), 0x1000_0000_0000_0000) == 2 * 0x1000_0000_0000_0000;
  }

  lemma DigitsOf16384()
    ensures NatToDigits(16384) == "16384"
  {
    assert NatToDigits(16) == NatToDigits(1) + [DigitChar(6)] == "16";
    assert NatToDigits(163) == NatToDigits(16) + [DigitChar(3)] == "163";
    assert NatToDigits(1638) == NatToDigits(163) + [DigitChar(8)] == "1638";
  }

  lemma DecimalOf16384()
    ensures DecimalValue("16384", "000") == 16384.0
  {
    DigitsOf16384();
    DigitsRoundTrip(16384);
    var b: string := "000";
    assert Fraction(b[2..]) == 0.0;
    assert Fraction(b[1..]) == 0.0;
  }

  /** 16384 PiB is 2^64 bytes, one more than fits: it clamps to ULONG_MAX. */
  lemma BytesClampFixture()
    ensures TextToBytes("16384.000 PiB") == Ok(ULONG_MAX)
  {
    var n, x := "16384" + "." + "000", FloatNr(16384.0);
    assert n + " " + "PiB" == "16384.000 PiB";
    NumberOf16384();
    PebibytesOf(n, x);
    ClampScaled();
  }

  lemma PebibytesOf(n: string, x: Number)
    requires TextToNr(n) == Ok(x)
    ensures TextToBytes(n + " " + "PiB") == Ok(Clamp(ScaledFloor(x, 0x4_0000_0000_0000)))
  {
    assert Pow1024(5) == 0x4_0000_0000_0000 by {
      Pow1024Values();
    }
    BytesOfSpacedUnit(n, "PiB", 5);
  }

  lemma NumberOf16384()
    ensures TextToNr("16384" + "." + "000") == Ok(FloatNr(16384.0))
  {
    DecimalOf16384();
    DecimalRead("16384", "000");
  }

  lemma ClampScaled()
    ensures ScaledFloor(FloatNr(16384.0), 0x4_0000_0000_0000) == 0x1_0000_0000_0000_0000
  {
    assert 16384.0 * 0x4_0000_0000_0000 as real == 0x1_0000_0000_0000_0000 as real;
  }

  // ==================================================================
  // Percentages

  /** A number followed by '%' is that many percent. */
  lemma PercentOfNumber(x: string, other: string -> Result<real, FmtError>)
    requires TextToNr(x).Ok?
    ensures TextToPercent(x + "%", other) == Ok(NumberValue(TextToNr(x).value))
  {
    assert (x + "%")[..|x|] == x;
  }

  /** ... and so is a number followed by whitespace and '%'. */
  lemma PercentOfSpacedNumber(x: string, other: string -> Result<real, FmtError>)
    requires TextToNr(x).Ok?
    ensures TextToPercent(x + " %", other) == Ok(NumberValue(TextToNr(x).value))
  {
    PercentOfNumber(x, other);
    PercentSpaceBeforeMarker(x, other);
  }

  lemma PercentTenFixture(other: string -> Result<real, FmtError>)
    ensures TextToPercent("10%", other) == Ok(10.0)
  {
    assert NatToDigits(10) == NatToDigits(1) + [DigitChar(0)] == "10";
    assert FormatNr(10) == "10";
    assert FormatNr(10) + "%" == "10%";
    PercentOfGrouped(10, other);
  }

  lemma DecimalOf1234()
    ensures DecimalValue("12", "34") == 12.34
  {
    assert NatToDigits(12) == NatToDigits(1) + [DigitChar(2)] == "12";
    DigitsRoundTrip(12);
    var b: string := "34";
    assert Fraction(b[1..]) == 0.4;
  }

  lemma PercentFractionFixture(other: string -> Result<real, FmtError>)
    ensures TextToPercent("12.34%", other) == Ok(12.34)
  {
    var n := "12" + "." + "34";
    assert n + "%" == "12.34%";
    DecimalOf1234();
    DecimalRead("12", "34");
    PercentOfNumber(n, other);
  }

  /** Whitespace before '%' is allowed. */
  lemma PercentSpacedFixture(other: string -> Result<real, FmtError>)
    ensures TextToPercent("12.34 %", other) == Ok(12.34)
  {
    var n := "12" + "." + "34";
    assert n + " %" == "12.34 %";
    DecimalOf1234();
    DecimalRead("12", "34");
    PercentOfSpacedNumber(n, other);
  }

  lemma PercentGroupedFixture(other: string -> Result<real, FmtError>)
    ensures TextToPercent("1,234.567 %", other) == Ok(1234.567)
  {
    var n := "1" + "," + "234" + "." + "567";
    assert n + " %" == "1,234.567 %";
    assert "1" + "234" == "1234";
    DecimalOf1234567();
    GroupedDecimalRead("1", "234", "567");
    PercentOfSpacedNumber(n, other);
  }

  lemma DecimalOf123456789()
    ensures DecimalValue("1234", "56789") == 1234.56789
  {
    DigitsOf1234567();
    DigitsRoundTrip(1234);
    var b: string := "56789";
    assert Fraction(b[4..]) == 0.9;
    assert Fraction(b[3..]) == 0.89 by { assert b[3..][1..] == b[4..]; }
    assert Fraction(b[2..]) == 0.789 by { assert b[2..][1..] == b[3..]; }
    assert Fraction(b[1..]) == 0.6789 by { assert b[1..][1..] == b[2..]; }
  }

  /** Commas are dropped after the '.' too. */
  lemma PercentCommaInFractionFixture(other: string -> Result<real, FmtError>)
    ensures TextToPercent("1,234.567,89 %", other) == Ok(1234.56789)
  {
    var n := "1" + "," + "234" + "." + "567" + "," + "89";
    assert n + " %" == "1,234.567,89 %";
    assert "1" + "234" == "1234" && "567" + "89" == "56789";
    DecimalOf123456789();
    TwiceGroupedDecimalRead("1", "234", "567", "89");
    PercentOfSpacedNumber(n, other);
  }

  // ==================================================================
  // Reading durations

  lemma RenderOne(p: Part)
    ensures Render([p]) == QuantityText(p.amount) + " " + UnitName(p.unit)
  {
    var q, u := QuantityText(p.amount), UnitName(p.unit);
    assert [p][1..] == [];
    assert Tokens([p]) == [q, u] + Tokens([]);
    assert [q, u] + [] == [q, u];
    assert [q, u][1..] == [u];
    assert JoinWith([q, u], " ") == q + " " + JoinWith([u], " ");
  }

  /** A rendering is its first part's amount and unit, then the rest. */
  lemma RenderCons(p: Part, ps: seq<Part>)
    requires ps != []
    ensures Render([p] + ps) == QuantityText(p.amount) + " " + UnitName(p.unit) + " " + Render(ps)
  {
    var q, u, t := QuantityText(p.amount), UnitName(p.unit), Tokens(ps);
    TokensAreWords(ps);
    assert ([p] + ps)[1..] == ps;
    assert Tokens([p] + ps) == [q, u] + t;
    assert ([q, u] + t)[1..] == [u] + t;
    assert ([u] + t)[1..] == t;
    assert JoinWith([u] + t, " ") == u + " " + JoinWith(t, " ");
    assert JoinWith([q, u] + t, " ") == q + " " + (u + " " + JoinWith(t, " "));
  }

  lemma RenderOneText(p: Part, q: string, u: string)
    requires QuantityText(p.amount) == q && UnitName(p.unit) == u
    ensures Render([p]) == q + " " + u
  {
    RenderOne(p);
  }

  lemma RenderConsText(p: Part, ps: seq<Part>, q: string, u: string, rest: string)
    requires ps != [] && Render(ps) == rest
    requires QuantityText(p.amount) == q && UnitName(p.unit) == u
    ensures Render([p] + ps) == q + " " + u + " " + rest
  {
    RenderCons(p, ps);
  }

  /** The nanoseconds of parts: the first part's, then the rest's. */
  lemma PartsNsCons(p: Part, ps: seq<Part>)
    ensures PartsNs([p] + ps) == PartNs(p) + PartsNs(ps)
  {
    assert ([p] + ps)[1..] == ps;
  }

  /** A text that renders a whole number `n` of `target` units reads as
      `n` in that unit. */
  lemma ReadsAsParts(s: string, ps: seq<Part>, target: TimeUnit, n: nat)
    requires |ps| >= 1 && Render(ps) == s && PartsNs(ps) == Scale(n as real, target)
    ensures TextToTime(s, target) == Ok(n)
  {
    ReadBack(ps, target);
    WholeUnits(n, target);
  }

  /** `n` units, counted in those units, are `n`. */
  lemma WholeUnits(n: nat, u: TimeUnit)
    ensures InUnits(Scale(n as real, u), u) == n
  {
    assert PerUnit(Scale(n as real, u), u) == n as real by {
      match u
      case Ns =>
      case Us =>
      case Ms =>
      case Sec =>
      case Minute =>
      case Hour =>
      case Day =>
    }
  }

  /** A bare number is taken in the unit asked for. */
  lemma TimeBareFixtures()
    ensures TextToNs("1") == Ok(1)
  {
    assert NatToDigits(1) == "1";
    BareNumberInTargetUnit(1, Ns);
  }

  lemma TimeBareUsFixture()
    ensures TextToUs("134") == Ok(134)
  {
    DigitsOf1234567();
    assert NatToDigits(134) == NatToDigits(13) + [DigitChar(4)] == "134";
    BareNumberInTargetUnit(134, Us);
  }

  lemma TimeBareMsFixture()
    ensures TextToMs("134") == Ok(134)
  {
    assert NatToDigits(13) == NatToDigits(1) + [DigitChar(3)] == "13";
    assert NatToDigits(134) == NatToDigits(13) + [DigitChar(4)] == "134";
    BareNumberInTargetUnit(134, Ms);
  }

  /** `max` is ULONG_MAX whatever the unit. */
  lemma TimeMaxFixtures()
    ensures TextToNs("max") == Ok(ULONG_MAX)
    ensures TextToUs("max") == Ok(ULONG_MAX)
    ensures TextToMs("max") == Ok(ULONG_MAX)
  {
  }

  lemma TimeOneNsFixture()
    ensures TextToNs("1 ns") == Ok(1)
  {
    var p := Part(Plain(1), Ns);
    var s := "1" + " " + "ns";
    assert s == "1 ns";
    assert NatToDigits(1) == "1";
    RenderOne(p);
    assert PartsNs([p]) == Scale(1.0, Ns);
    ReadsAsParts(s, [p], Ns, 1);
  }

  lemma TimeOneUsFixture()
    ensures TextToUs("1 us") == Ok(1)
  {
    var p := Part(Plain(1), Us);
    var s := "1" + " " + "us";
    assert s == "1 us";
    assert NatToDigits(1) == "1";
    RenderOne(p);
    assert PartsNs([p]) == Scale(1.0, Us);
    ReadsAsParts(s, [p], Us, 1);
  }

  lemma TimeUsFixture()
    ensures TextToUs("1234 us") == Ok(1234)
  {
    var p := Part(Plain(1234), Us);
    var s := "1234" + " " + "us";
    assert s == "1234 us";
    DigitsOf1234567();
    RenderOne(p);
    assert PartsNs([p]) == Scale(1234.0, Us);
    ReadsAsParts(s, [p], Us, 1234);
  }

  lemma TimeGroupedUsFixture()
    ensures TextToUs("1,234 us") == Ok(1234)
  {
    var p := Part(Grouped(1234), Us);
    var s := "1,234" + " " + "us";
    assert s == "1,234 us";
    GroupedOf1234();
    RenderOne(p);
    assert PartsNs([p]) == Scale(1234.0, Us);
    ReadsAsParts(s, [p], Us, 1234);
  }

  lemma TimeMsInUsFixture()
    ensures TextToUs("1 ms") == Ok(1000)
  {
    var p := Part(Plain(1), Ms);
    var s := "1" + " " + "ms";
    assert s == "1 ms";
    assert NatToDigits(1) == "1";
    RenderOne(p);
    assert PartsNs([p]) == Scale(1000.0, Us);
    ReadsAsParts(s, [p], Us, 1000);
  }

  lemma TimeMinuteSecondFixture()
    ensures TextToUs("1 m 2 s") == Ok(62 * 1000 * 1000)
  {
    var a, b := Part(Plain(1), Minute), Part(Plain(2), Sec);
    var s := "1" + " " + "m" + " " + ("2" + " " + "s");
    assert s == "1 m 2 s";
    assert NatToDigits(1) == "1" && NatToDigits(2) == "2";
    RenderOne(b);
    RenderCons(a, [b]);
    PartsNsCons(a, [b]);
    assert [a] + [b] == [a, b];
    assert PartsNs([a, b]) == Scale(62_000_000.0, Us);
    ReadsAsParts(s, [a, b], Us, 62_000_000);
  }

  lemma TimeHourFixture()
    ensures TextToUs("2 h 1 m 2 s") == Ok(7262 * 1000 * 1000)
  {
    var a, b, c := Part(Plain(2), Hour), Part(Plain(1), Minute), Part(Plain(2), Sec);
    var s := "2" + " " + "h" + " " + ("1" + " " + "m" + " " + ("2" + " " + "s"));
    assert s == "2 h 1 m 2 s";
    assert NatToDigits(1) == "1" && NatToDigits(2) == "2";
    RenderOne(c);
    RenderCons(b, [c]);
    PartsNsCons(b, [c]);
    assert [b] + [c] == [b, c];
    RenderCons(a, [b, c]);
    PartsNsCons(a, [b, c]);
    assert [a] + [b, c] == [a, b, c];
    assert PartsNs([a, b, c]) == Scale(7_262_000_000.0, Us);
    ReadsAsParts(s, [a, b, c], Us, 7_262_000_000);
  }

  lemma TimeDayFixture()
    ensures TextToUs("3 d 2 h 1 m 2 s") == Ok(3 * 24 * 60 * 60 * 1000 * 1000 + 7262 * 1000 * 1000)
  {
    var a, b, c, d := Part(Plain(3), Day), Part(Plain(2), Hour), Part(Plain(1), Minute), Part(Plain(2), Sec);
    var ps := [a, b, c, d];
    var s := "3 d 2 h 1 m 2 s";
    assert Render(ps) == s by {
      RenderOfDayText(a, b, c, d);
    }
    assert PartsNs(ps) == Scale(266_462_000_000.0, Us) by {
      DayTextNs(a, b, c, d);
    }
    ReadsAsParts(s, ps, Us, 266_462_000_000);
  }

  lemma RenderOfDayText(a: Part, b: Part, c: Part, d: Part)
    requires a == Part(Plain(3), Day) && b == Part(Plain(2), Hour)
    requires c == Part(Plain(1), Minute) && d == Part(Plain(2), Sec)
    ensures Render([a, b, c, d]) == "3 d 2 h 1 m 2 s"
  {
    assert NatToDigits(1) == "1" && NatToDigits(2) == "2" && NatToDigits(3) == "3";
    var r1 := "2" + " " + "s";
    assert Render([d]) == r1 by { RenderOneText(d, "2", "s"); }
    var r2 := "1" + " " + "m" + " " + r1;
    assert Render([c, d]) == r2 by {
      RenderConsText(c, [d], "1", "m", r1);
      assert [c] + [d] == [c, d];
    }
    var r3 := "2" + " " + "h" + " " + r2;
    assert Render([b, c, d]) == r3 by {
      RenderConsText(b, [c, d], "2", "h", r2);
      assert [b] + [c, d] == [b, c, d];
    }
    var r4 := "3" + " " + "d" + " " + r3;
    assert Render([a, b, c, d]) == r4 by {
      RenderConsText(a, [b, c, d], "3", "d", r3);
      assert [a] + [b, c, d] == [a, b, c, d];
    }
    assert r4 == "3 d 2 h 1 m 2 s";
  }

  lemma DayTextNs(a: Part, b: Part, c: Part, d: Part)
    requires a == Part(Plain(3), Day) && b == Part(Plain(2), Hour)
    requires c == Part(Plain(1), Minute) && d == Part(Plain(2), Sec)
    ensures PartsNs([a, b, c, d]) == Scale(266_462_000_000.0, Us)
  {
    assert PartsNs([d]) == 2_000_000_000.0 by {
      PartsNsCons(d, []);
      assert [d] + [] == [d];
    }
    assert PartsNs([c, d]) == 62_000_000_000.0 by {
      PartsNsCons(c, [d]);
      assert [c] + [d] == [c, d];
    }
    assert PartsNs([b, c, d]) == 7_262_000_000_000.0 by {
      PartsNsCons(b, [c, d]);
      assert [b] + [c, d] == [b, c, d];
    }
    PartsNsCons(a, [b, c, d]);
    assert [a] + [b, c, d] == [a, b, c, d];
  }


  /** The number run of a field stops where its unit starts. */
  lemma NumberPrefixOf(d: string, w: string)
    requires forall i :: 0 <= i < |d| ==> IsNumberChar(d[i])
    requires w != [] && !IsNumberChar(w[0])
    ensures NumberPrefix(d + w) == |d|
  {
    var t := d + w;
    assert t[..|d|] == d;
  }

  /** Digits with a unit stuck to them are not a bare number. */
  lemma AbuttedNotBare(d: string, un: string)
    requires |d| >= 1 && AllDigits(d)
    requires |un| >= 1 && forall i :: 0 <= i < |un| ==> IsLetter(un[i])
    ensures TextToNr(d + un).Err?
  {
    var t := d + un;
    assert forall i :: 0 <= i < |t| ==> IsDigit(t[i]) || IsLetter(t[i]);
    FilterKeepsAll(NotComma, t);
    StripOfTrimmed(t);
    assert !IsDigit(t[|t| - 1]);
  }

  /** Digits followed by a unit name split into the number and the unit. */
  lemma AbuttedParts(d: string, u: TimeUnit)
    requires |d| >= 1 && AllDigits(d)
    ensures var t := d + UnitName(u);
      && NumberPrefix(t) == |d| < |t|
      && TextToNr(t[..|d|]) == Ok(IntNr(DigitsValue(d)))
      && UnitOfName(t[|d|..]) == Ok(u)
  {
    var un := UnitName(u);
    var t := d + un;
    UnitNameWord(u);
    NumberPrefixOf(d, un);
    assert t[..|d|] == d && t[|d|..] == un;
    CleanText(d);
    ReadsAsInt(d);
    UnitNameRead(u);
  }

  /** One field holding digits and a unit is one pair. */
  lemma AbuttedSum(d: string, u: TimeUnit)
    requires |d| >= 1 && AllDigits(d)
    ensures SumPairs([d + UnitName(u)]) == Ok(Scale(DigitsValue(d) as real, u))
  {
    var t := d + UnitName(u);
    AbuttedParts(d, u);
    var x := IntNr(DigitsValue(d));
    SumPairsAbutted(t, [], |d|, x, u, 0.0);
    assert [t] + [] == [t];
    assert InNs(x, u) == Scale(DigitsValue(d) as real, u);
    assert SumPairs([t]) == Ok(Scale(DigitsValue(d) as real, u) + 0.0);
  }

  /** A field whose number run stops before its end holds a whole pair. */
  lemma SumPairsAbutted(t: string, more: seq<string>, k: nat, x: Number, u: TimeUnit, rest: real)
    requires NumberPrefix(t) == k && k < |t|
    requires TextToNr(t[..k]) == Ok(x) && UnitOfName(t[k..]) == Ok(u) && SumPairs(more) == Ok(rest)
    ensures SumPairs([t] + more) == Ok(InNs(x, u) + rest)
  {
    var ts := [t] + more;
    assert ts[0] == t && ts[1..] == more;
  }

  /** A unit may abut its number: "1234us" is one field holding a pair. */
  lemma AbuttedUnit(d: string, u: TimeUnit, target: TimeUnit)
    requires |d| >= 1 && AllDigits(d)
    ensures TextToTime(d + UnitName(u), target) == Ok(InUnits(Scale(DigitsValue(d) as real, u), target))
  {
    var un := UnitName(u);
    var t := d + un;
    assert IsWord(t) by {
      assert forall i :: 0 <= i < |t| ==> IsDigit(t[i]) || IsLetter(t[i]);
    }
    assert JoinWith([t], " ") == t;
    FieldsOfJoin([t]);
    assert t != "min" && t != "max" by {
      assert IsDigit(t[0]);
    }
    AbuttedNotBare(d, un);
    AbuttedSum(d, u);
  }

  lemma TimeAbuttedFixture()
    ensures TextToUs("1234us") == Ok(1234)
  {
    var s := "1234" + "us";
    assert s == "1234us";
    DigitsOf1234567();
    DigitsRoundTrip(1234);
    AbuttedUnit("1234", Us, Us);
    WholeUnits(1234, Us);
  }

  // ==================================================================
  // Rendering durations

  /** Below a thousand, grouping adds no comma. */
  lemma SmallNr(n: nat)
    requires n < 1000
    ensures FormatNr(n) == NatToDigits(n)
  {
    if n >= 10 {
      assert |NatToDigits(n / 10)| <= 2 by {
        if n / 10 >= 10 {
          assert NatToDigits(n / 10) == NatToDigits(n / 100) + [DigitChar(n / 10 % 10)];
        }
      }
    }
  }

  lemma DigitsOf456789()
    ensures NatToDigits(456) == "456" && NatToDigits(789) == "789"
  {
    assert NatToDigits(45) == NatToDigits(4) + [DigitChar(5)] == "45";
    assert NatToDigits(78) == NatToDigits(7) + [DigitChar(8)] == "78";
  }

  /** From a minute up, the approximate form is whole hours, whole minutes
      and the rest in seconds, each left out when zero. */
  lemma ApproxFromMinute(ns: nat, h: nat, m: nat, rem: nat)
    requires ns >= UnitNs(Minute)
    requires h == ns / UnitNs(Hour) && m == ns % UnitNs(Hour) / UnitNs(Minute)
    requires rem == ns % UnitNs(Hour) % UnitNs(Minute)
    ensures ApproxParts(ns) == (if h > 0 then [Part(Plain(h), Hour)] else [])
      + (if m > 0 then [Part(Plain(m), Minute)] else [])
      + (if rem > 0 then [LastPart(rem, Sec)] else [])
  {
  }

  /** Below a minute, the approximate form is one component in the largest
      unit that fits. */
  lemma ApproxBelowMinute(ns: nat, u: TimeUnit)
    requires u == Sec || u == Ms || u == Us
    requires UnitNs(u) <= ns < UnitNs(Minute) && ns < 1000 * UnitNs(u)
    ensures ApproxParts(ns) == [LastPart(ns, u)]
  {
  }

  lemma ApproxOfNanos(ns: nat)
    requires ns < UnitNs(Us)
    ensures ApproxParts(ns) == [Part(Plain(ns), Ns)]
  {
  }

  lemma LastPartWhole(x: nat, u: TimeUnit, c: nat)
    requires x % UnitNs(u) == 0 && x / UnitNs(u) == c
    ensures LastPart(x, u) == Part(Plain(c), u)
  {
  }

  lemma LastPartMilli(x: nat, u: TimeUnit, q: nat)
    requires x % UnitNs(u) != 0 && RoundMilli(x, UnitNs(u)) == q
    ensures LastPart(x, u) == Part(Milli(q), u)
  {
  }

  /** A count of thousandths shows as its whole part, a dot, and three digits. */
  lemma MilliText(q: nat, w: nat, f: nat, a: string, b: string)
    requires w == q / 1000 && f == q % 1000
    requires NatToDigits(w) == a && NatToDigits(f) == b && f >= 100
    ensures QuantityText(Milli(q)) == a + "." + b
  {
    assert Pad3(f) == NatToDigits(f) by {
      assert NatToDigits(f) == NatToDigits(f / 10) + [DigitChar(f % 10)];
      assert NatToDigits(f / 10) == NatToDigits(f / 100) + [DigitChar(f / 10 % 10)];
    }
  }

  lemma DigitsOf457()
    ensures NatToDigits(457) == "457"
  {
    assert NatToDigits(45) == NatToDigits(4) + [DigitChar(5)] == "45";
    assert NatToDigits(457) == NatToDigits(45) + [DigitChar(7)];
  }

  lemma DigitsOf59()
    ensures NatToDigits(59) == "59"
  {
    assert NatToDigits(59) == NatToDigits(5) + [DigitChar(9)];
  }

  lemma DigitsOf74()
    ensures NatToDigits(74) == "74"
  {
    assert NatToDigits(74) == NatToDigits(7) + [DigitChar(4)];
  }

  lemma DigitsOf29618()
    ensures NatToDigits(29618) == "29618"
  {
    assert NatToDigits(29) == NatToDigits(2) + [DigitChar(9)] == "29";
    assert NatToDigits(296) == NatToDigits(29) + [DigitChar(6)] == "296";
    assert NatToDigits(2961) == NatToDigits(296) + [DigitChar(1)] == "2961";
    assert NatToDigits(29618) == NatToDigits(2961) + [DigitChar(8)] == "29618";
  }

  lemma ExactPartsOfNanos()
    ensures ExactParts(123) == [Part(Grouped(123), Ns)]
  {
    var ps := [Part(Grouped(123), Ns)];
    assert Component(0, Day)
      + (Component(0, Hour)
      + (Component(0, Minute)
      + (Component(0, Sec)
      + (Component(0, Ms)
      + (Component(0, Us)
      + (Component(123, Ns)))))))
      == ps;
    assert ExactParts(123) == ps by {
      ExactPartsDigits(123, 0, 0, 0, 0, 0, 0, 123);
    }
  }

  lemma ApproxPartsOfNanos()
    ensures ApproxParts(123) == [Part(Plain(123), Ns)]
  {
    ApproxOfNanos(123);
  }

  lemma RenderOfNanosExact(p0: Part)
    requires p0 == Part(Grouped(123), Ns)
    ensures Render([p0]) == "123 ns"
  {
    var s := "123" + " " + "ns";
    assert s == "123 ns";
    SmallNr(123);
    DigitsOf1234567();
    RenderOneText(p0, "123", "ns");
  }

  lemma RenderOfNanosApprox(p0: Part)
    requires p0 == Part(Plain(123), Ns)
    ensures Render([p0]) == "123 ns"
  {
    var s := "123" + " " + "ns";
    assert s == "123 ns";
    DigitsOf1234567();
    RenderOneText(p0, "123", "ns");
  }

  /** Below a microsecond both forms show plain nanoseconds. */
  lemma TimeNanosRenderFixture()
    ensures FormatTimeNsExact(123) == "123 ns"
    ensures FormatTimeNs(123) == "123 ns"
  {
    ExactPartsOfNanos();
    RenderOfNanosExact(Part(Grouped(123), Ns));
    ApproxPartsOfNanos();
    RenderOfNanosApprox(Part(Plain(123), Ns));
  }

  lemma ExactPartsOfMicrosNanos()
    ensures ExactParts(123_456) == [Part(Grouped(123), Us), Part(Grouped(456), Ns)]
  {
    var ps := [Part(Grouped(123), Us), Part(Grouped(456), Ns)];
    assert Component(0, Day)
      + (Component(0, Hour)
      + (Component(0, Minute)
      + (Component(0, Sec)
      + (Component(0, Ms)
      + (Component(123, Us)
      + (Component(456, Ns)))))))
      == ps;
    assert ExactParts(123_456) == ps by {
      ExactPartsDigits(123_456, 0, 0, 0, 0, 0, 123, 456);
    }
  }

  lemma ApproxPartsOfMicrosNanos()
    ensures ApproxParts(123_456) == [Part(Milli(123_456), Us)]
  {
    ApproxBelowMinute(123_456, Us);
    LastPartMilli(123_456, Us, 123_456);
  }

  lemma RenderOfMicrosNanosExactFromNs(p0: Part)
    requires p0 == Part(Grouped(456), Ns)
    ensures Render([p0]) == "456 ns"
  {
    var s := "456" + " " + "ns";
    assert s == "456 ns";
    SmallNr(456);
    DigitsOf456789();
    RenderOneText(p0, "456", "ns");
  }

  lemma RenderOfMicrosNanosExact(p0: Part, p1: Part)
    requires p0 == Part(Grouped(123), Us)
    requires p1 == Part(Grouped(456), Ns)
    ensures Render([p0, p1]) == "123 us 456 ns"
  {
    var rest := "456 ns";
    var s := "123" + " " + "us" + " " + rest;
    assert s == "123 us 456 ns";
    SmallNr(123);
    DigitsOf1234567();
    RenderOfMicrosNanosExactFromNs(p1);
    RenderConsText(p0, [p1], "123", "us", rest);
    assert [p0] + [p1] == [p0, p1];
  }

  lemma RenderOfMicrosNanosApprox(p0: Part)
    requires p0 == Part(Milli(123_456), Us)
    ensures Render([p0]) == "123.456 us"
  {
    var s := "123.456" + " " + "us";
    assert s == "123.456 us";
    DigitsOf1234567();
    DigitsOf456789();
    MilliText(123_456, 123, 456, "123", "456");
    RenderOneText(p0, "123.456", "us");
  }

  /** The exact form splits microseconds from nanoseconds; the approximate
      form shows microseconds with three decimals. */
  lemma TimeMicrosNanosRenderFixture()
    ensures FormatTimeNsExact(123_456) == "123 us 456 ns"
    ensures FormatTimeNs(123_456) == "123.456 us"
  {
    ExactPartsOfMicrosNanos();
    RenderOfMicrosNanosExact(Part(Grouped(123), Us), Part(Grouped(456), Ns));
    ApproxPartsOfMicrosNanos();
    RenderOfMicrosNanosApprox(Part(Milli(123_456), Us));
  }

  lemma ExactPartsOfMicros()
    ensures ExactParts(123_000) == [Part(Grouped(123), Us)]
  {
    var ps := [Part(Grouped(123), Us)];
    assert Component(0, Day)
      + (Component(0, Hour)
      + (Component(0, Minute)
      + (Component(0, Sec)
      + (Component(0, Ms)
      + (Component(123, Us)
      + (Component(0, Ns)))))))
      == ps;
    assert ExactParts(123_000) == ps by {
      ExactPartsDigits(123_000, 0, 0, 0, 0, 0, 123, 0);
    }
  }

  lemma ApproxPartsOfMicros()
    ensures ApproxParts(123_000) == [Part(Plain(123), Us)]
  {
    ApproxBelowMinute(123_000, Us);
    LastPartWhole(123_000, Us, 123);
  }

  lemma RenderOfMicrosExact(p0: Part)
    requires p0 == Part(Grouped(123), Us)
    ensures Render([p0]) == "123 us"
  {
    var s := "123" + " " + "us";
    assert s == "123 us";
    SmallNr(123);
    DigitsOf1234567();
    RenderOneText(p0, "123", "us");
  }

  lemma RenderOfMicrosApprox(p0: Part)
    requires p0 == Part(Plain(123), Us)
    ensures Render([p0]) == "123 us"
  {
    var s := "123" + " " + "us";
    assert s == "123 us";
    DigitsOf1234567();
    RenderOneText(p0, "123", "us");
  }

  /** Whole microseconds show without a fraction in both forms. */
  lemma TimeMicrosRenderFixture()
    ensures FormatTimeNsExact(123_000) == "123 us"
    ensures FormatTimeNs(123_000) == "123 us"
  {
    ExactPartsOfMicros();
    RenderOfMicrosExact(Part(Grouped(123), Us));
    ApproxPartsOfMicros();
    RenderOfMicrosApprox(Part(Plain(123), Us));
  }

  lemma ExactPartsOfMillisMicros()
    ensures ExactParts(123_456_789) == [Part(Grouped(123), Ms), Part(Grouped(456), Us),
      Part(Grouped(789), Ns)]
  {
    var ps := [Part(Grouped(123), Ms), Part(Grouped(456), Us),
      Part(Grouped(789), Ns)];
    assert Component(0, Day)
      + (Component(0, Hour)
      + (Component(0, Minute)
      + (Component(0, Sec)
      + (Component(123, Ms)
      + (Component(456, Us)
      + (Component(789, Ns)))))))
      == ps;
    assert ExactParts(123_456_789) == ps by {
      ExactPartsDigits(123_456_789, 0, 0, 0, 0, 123, 456, 789);
    }
  }

  lemma ApproxPartsOfMillisMicros()
    ensures ApproxParts(123_456_789) == [Part(Milli(123_457), Ms)]
  {
    ApproxBelowMinute(123_456_789, Ms);
    LastPartMilli(123_456_789, Ms, 123_457);
  }

  lemma RenderOfMillisMicrosExactFromNs(p0: Part)
    requires p0 == Part(Grouped(789), Ns)
    ensures Render([p0]) == "789 ns"
  {
    var s := "789" + " " + "ns";
    assert s == "789 ns";
    SmallNr(789);
    DigitsOf456789();
    RenderOneText(p0, "789", "ns");
  }

  lemma RenderOfMillisMicrosExactFromUs(p0: Part, p1: Part)
    requires p0 == Part(Grouped(456), Us)
    requires p1 == Part(Grouped(789), Ns)
    ensures Render([p0, p1]) == "456 us 789 ns"
  {
    var rest := "789 ns";
    var s := "456" + " " + "us" + " " + rest;
    assert s == "456 us 789 ns";
    SmallNr(456);
    DigitsOf456789();
    RenderOfMillisMicrosExactFromNs(p1);
    RenderConsText(p0, [p1], "456", "us", rest);
    assert [p0] + [p1] == [p0, p1];
  }

  lemma RenderOfMillisMicrosExact(p0: Part, p1: Part, p2: Part)
    requires p0 == Part(Grouped(123), Ms)
    requires p1 == Part(Grouped(456), Us)
    requires p2 == Part(Grouped(789), Ns)
    ensures Render([p0, p1, p2]) == "123 ms 456 us 789 ns"
  {
    var rest := "456 us 789 ns";
    var s := "123" + " " + "ms" + " " + rest;
    assert s == "123 ms 456 us 789 ns";
    SmallNr(123);
    DigitsOf1234567();
    RenderOfMillisMicrosExactFromUs(p1, p2);
    RenderConsText(p0, [p1, p2], "123", "ms", rest);
    assert [p0] + [p1, p2] == [p0, p1, p2];
  }

  lemma RenderOfMillisMicrosApprox(p0: Part)
    requires p0 == Part(Milli(123_457), Ms)
    ensures Render([p0]) == "123.457 ms"
  {
    var s := "123.457" + " " + "ms";
    assert s == "123.457 ms";
    DigitsOf1234567();
    DigitsOf457();
    MilliText(123_457, 123, 457, "123", "457");
    RenderOneText(p0, "123.457", "ms");
  }

  /** The approximate form rounds to the nearest thousandth. */
  lemma TimeMillisMicrosRenderFixture()
    ensures FormatTimeNsExact(123_456_789) == "123 ms 456 us 789 ns"
    ensures FormatTimeNs(123_456_789) == "123.457 ms"
  {
    ExactPartsOfMillisMicros();
    RenderOfMillisMicrosExact(Part(Grouped(123), Ms), Part(Grouped(456), Us),
      Part(Grouped(789), Ns));
    ApproxPartsOfMillisMicros();
    RenderOfMillisMicrosApprox(Part(Milli(123_457), Ms));
  }

  lemma ExactPartsOfMillis()
    ensures ExactParts(123_000_000) == [Part(Grouped(123), Ms)]
  {
    var ps := [Part(Grouped(123), Ms)];
    assert Component(0, Day)
      + (Component(0, Hour)
      + (Component(0, Minute)
      + (Component(0, Sec)
      + (Component(123, Ms)
      + (Component(0, Us)
      + (Component(0, Ns)))))))
      == ps;
    assert ExactParts(123_000_000) == ps by {
      ExactPartsDigits(123_000_000, 0, 0, 0, 0, 123, 0, 0);
    }
  }

  lemma ApproxPartsOfMillis()
    ensures ApproxParts(123_000_000) == [Part(Plain(123), Ms)]
  {
    ApproxBelowMinute(123_000_000, Ms);
    LastPartWhole(123_000_000, Ms, 123);
  }

  lemma RenderOfMillisExact(p0: Part)
    requires p0 == Part(Grouped(123), Ms)
    ensures Render([p0]) == "123 ms"
  {
    var s := "123" + " " + "ms";
    assert s == "123 ms";
    SmallNr(123);
    DigitsOf1234567();
    RenderOneText(p0, "123", "ms");
  }

  lemma RenderOfMillisApprox(p0: Part)
    requires p0 == Part(Plain(123), Ms)
    ensures Render([p0]) == "123 ms"
  {
    var s := "123" + " " + "ms";
    assert s == "123 ms";
    DigitsOf1234567();
    RenderOneText(p0, "123", "ms");
  }

  /** Whole milliseconds show without a fraction in both forms. */
  lemma TimeMillisRenderFixture()
    ensures FormatTimeNsExact(123_000_000) == "123 ms"
    ensures FormatTimeNs(123_000_000) == "123 ms"
  {
    ExactPartsOfMillis();
    RenderOfMillisExact(Part(Grouped(123), Ms));
    ApproxPartsOfMillis();
    RenderOfMillisApprox(Part(Plain(123), Ms));
  }

  lemma ExactPartsOfMinutesFraction()
    ensures ExactParts(123_456_789_123) == [Part(Grouped(2), Minute), Part(Grouped(3), Sec),
      Part(Grouped(456), Ms), Part(Grouped(789), Us),
      Part(Grouped(123), Ns)]
  {
    var ps := [Part(Grouped(2), Minute), Part(Grouped(3), Sec),
      Part(Grouped(456), Ms), Part(Grouped(789), Us),
      Part(Grouped(123), Ns)];
    assert Component(0, Day)
      + (Component(0, Hour)
      + (Component(2, Minute)
      + (Component(3, Sec)
      + (Component(456, Ms)
      + (Component(789, Us)
      + (Component(123, Ns)))))))
      == ps;
    assert ExactParts(123_456_789_123) == ps by {
      ExactPartsDigits(123_456_789_123, 0, 0, 2, 3, 456, 789, 123);
    }
  }

  lemma ApproxPartsOfMinutesFraction()
    ensures ApproxParts(123_456_789_123) == [Part(Plain(2), Minute), Part(Milli(3457), Sec)]
  {
    ApproxFromMinute(123_456_789_123, 0, 2, 3_456_789_123);
    LastPartMilli(3_456_789_123, Sec, 3457);
    assert [] + [Part(Plain(2), Minute)] + [Part(Milli(3457), Sec)]
      == [Part(Plain(2), Minute), Part(Milli(3457), Sec)];
  }

  lemma RenderOfMinutesFractionExactFromUs(p0: Part, p1: Part)
    requires p0 == Part(Grouped(789), Us)
    requires p1 == Part(Grouped(123), Ns)
    ensures Render([p0, p1]) == "789 us 123 ns"
  {
    var rest := "123 ns";
    var s := "789" + " " + "us" + " " + rest;
    assert s == "789 us 123 ns";
    SmallNr(789);
    DigitsOf456789();
    RenderOfNanosExact(p1);
    RenderConsText(p0, [p1], "789", "us", rest);
    assert [p0] + [p1] == [p0, p1];
  }

  lemma RenderOfMinutesFractionExactFromMs(p0: Part, p1: Part, p2: Part)
    requires p0 == Part(Grouped(456), Ms)
    requires p1 == Part(Grouped(789), Us)
    requires p2 == Part(Grouped(123), Ns)
    ensures Render([p0, p1, p2]) == "456 ms 789 us 123 ns"
  {
    var rest := "789 us 123 ns";
    var s := "456" + " " + "ms" + " " + rest;
    assert s == "456 ms 789 us 123 ns";
    SmallNr(456);
    DigitsOf456789();
    RenderOfMinutesFractionExactFromUs(p1, p2);
    RenderConsText(p0, [p1, p2], "456", "ms", rest);
    assert [p0] + [p1, p2] == [p0, p1, p2];
  }

  lemma RenderOfMinutesFractionExactFromSec(p0: Part, p1: Part, p2: Part, p3: Part)
    requires p0 == Part(Grouped(3), Sec)
    requires p1 == Part(Grouped(456), Ms)
    requires p2 == Part(Grouped(789), Us)
    requires p3 == Part(Grouped(123), Ns)
    ensures Render([p0, p1, p2, p3]) == "3 s 456 ms 789 us 123 ns"
  {
    var rest := "456 ms 789 us 123 ns";
    var s := "3" + " " + "s" + " " + rest;
    assert s == "3 s 456 ms 789 us 123 ns";
    SmallNr(3);
    RenderOfMinutesFractionExactFromMs(p1, p2, p3);
    RenderConsText(p0, [p1, p2, p3], "3", "s", rest);
    assert [p0] + [p1, p2, p3] == [p0, p1, p2, p3];
  }

  lemma RenderOfMinutesFractionExact(p0: Part, p1: Part, p2: Part, p3: Part, p4: Part)
    requires p0 == Part(Grouped(2), Minute)
    requires p1 == Part(Grouped(3), Sec)
    requires p2 == Part(Grouped(456), Ms)
    requires p3 == Part(Grouped(789), Us)
    requires p4 == Part(Grouped(123), Ns)
    ensures Render([p0, p1, p2, p3, p4]) == "2 m 3 s 456 ms 789 us 123 ns"
  {
    var rest := "3 s 456 ms 789 us 123 ns";
    var s := "2" + " " + "m" + " " + rest;
    assert s == "2 m 3 s 456 ms 789 us 123 ns";
    SmallNr(2);
    RenderOfMinutesFractionExactFromSec(p1, p2, p3, p4);
    RenderConsText(p0, [p1, p2, p3, p4], "2", "m", rest);
    assert [p0] + [p1, p2, p3, p4] == [p0, p1, p2, p3, p4];
  }

  lemma RenderOfMinutesFractionApproxFromSec(p0: Part)
    requires p0 == Part(Milli(3457), Sec)
    ensures Render([p0]) == "3.457 s"
  {
    var s := "3.457" + " " + "s";
    assert s == "3.457 s";
    DigitsOf457();
    MilliText(3457, 3, 457, "3", "457");
    RenderOneText(p0, "3.457", "s");
  }

  lemma RenderOfMinutesFractionApprox(p0: Part, p1: Part)
    requires p0 == Part(Plain(2), Minute)
    requires p1 == Part(Milli(3457), Sec)
    ensures Render([p0, p1]) == "2 m 3.457 s"
  {
    var rest := "3.457 s";
    var s := "2" + " " + "m" + " " + rest;
    assert s == "2 m 3.457 s";
    RenderOfMinutesFractionApproxFromSec(p1);
    RenderConsText(p0, [p1], "2", "m", rest);
    assert [p0] + [p1] == [p0, p1];
  }

  /** From a minute up, the approximate form keeps minutes whole and rounds
      the seconds. */
  lemma TimeMinutesFractionRenderFixture()
    ensures FormatTimeNsExact(123_456_789_123) == "2 m 3 s 456 ms 789 us 123 ns"
    ensures FormatTimeNs(123_456_789_123) == "2 m 3.457 s"
  {
    ExactPartsOfMinutesFraction();
    RenderOfMinutesFractionExact(Part(Grouped(2), Minute), Part(Grouped(3), Sec),
      Part(Grouped(456), Ms), Part(Grouped(789), Us),
      Part(Grouped(123), Ns));
    ApproxPartsOfMinutesFraction();
    RenderOfMinutesFractionApprox(Part(Plain(2), Minute), Part(Milli(3457), Sec));
  }

  lemma ExactPartsOfMinutesSeconds()
    ensures ExactParts(123_000_000_000) == [Part(Grouped(2), Minute), Part(Grouped(3), Sec)]
  {
    var ps := [Part(Grouped(2), Minute), Part(Grouped(3), Sec)];
    assert Component(0, Day)
      + (Component(0, Hour)
      + (Component(2, Minute)
      + (Component(3, Sec)
      + (Component(0, Ms)
      + (Component(0, Us)
      + (Component(0, Ns)))))))
      == ps;
    assert ExactParts(123_000_000_000) == ps by {
      ExactPartsDigits(123_000_000_000, 0, 0, 2, 3, 0, 0, 0);
    }
  }

  lemma ApproxPartsOfMinutesSeconds()
    ensures ApproxParts(123_000_000_000) == [Part(Plain(2), Minute), Part(Plain(3), Sec)]
  {
    ApproxFromMinute(123_000_000_000, 0, 2, 3_000_000_000);
    LastPartWhole(3_000_000_000, Sec, 3);
    assert [] + [Part(Plain(2), Minute)] + [Part(Plain(3), Sec)]
      == [Part(Plain(2), Minute), Part(Plain(3), Sec)];
  }

  lemma RenderOfMinutesSecondsExactFromSec(p0: Part)
    requires p0 == Part(Grouped(3), Sec)
    ensures Render([p0]) == "3 s"
  {
    var s := "3" + " " + "s";
    assert s == "3 s";
    SmallNr(3);
    RenderOneText(p0, "3", "s");
  }

  lemma RenderOfMinutesSecondsExact(p0: Part, p1: Part)
    requires p0 == Part(Grouped(2), Minute)
    requires p1 == Part(Grouped(3), Sec)
    ensures Render([p0, p1]) == "2 m 3 s"
  {
    var rest := "3 s";
    var s := "2" + " " + "m" + " " + rest;
    assert s == "2 m 3 s";
    SmallNr(2);
    RenderOfMinutesSecondsExactFromSec(p1);
    RenderConsText(p0, [p1], "2", "m", rest);
    assert [p0] + [p1] == [p0, p1];
  }

  lemma RenderOfMinutesSecondsApproxFromSec(p0: Part)
    requires p0 == Part(Plain(3), Sec)
    ensures Render([p0]) == "3 s"
  {
    var s := "3" + " " + "s";
    assert s == "3 s";
    RenderOneText(p0, "3", "s");
  }

  lemma RenderOfMinutesSecondsApprox(p0: Part, p1: Part)
    requires p0 == Part(Plain(2), Minute)
    requires p1 == Part(Plain(3), Sec)
    ensures Render([p0, p1]) == "2 m 3 s"
  {
    var rest := "3 s";
    var s := "2" + " " + "m" + " " + rest;
    assert s == "2 m 3 s";
    RenderOfMinutesSecondsApproxFromSec(p1);
    RenderConsText(p0, [p1], "2", "m", rest);
    assert [p0] + [p1] == [p0, p1];
  }

  /** Whole seconds past a minute show without a fraction. */
  lemma TimeMinutesSecondsRenderFixture()
    ensures FormatTimeNsExact(123_000_000_000) == "2 m 3 s"
    ensures FormatTimeNs(123_000_000_000) == "2 m 3 s"
  {
    ExactPartsOfMinutesSeconds();
    RenderOfMinutesSecondsExact(Part(Grouped(2), Minute), Part(Grouped(3), Sec));
    ApproxPartsOfMinutesSeconds();
    RenderOfMinutesSecondsApprox(Part(Plain(2), Minute), Part(Plain(3), Sec));
  }

  lemma ExactPartsOfOneMinute()
    ensures ExactParts(60_000_000_000) == [Part(Grouped(1), Minute)]
  {
    var ps := [Part(Grouped(1), Minute)];
    assert Component(0, Day)
      + (Component(0, Hour)
      + (Component(1, Minute)
      + (Component(0, Sec)
      + (Component(0, Ms)
      + (Component(0, Us)
      + (Component(0, Ns)))))))
      == ps;
    assert ExactParts(60_000_000_000) == ps by {
      ExactPartsDigits(60_000_000_000, 0, 0, 1, 0, 0, 0, 0);
    }
  }

  lemma ApproxPartsOfOneMinute()
    ensures ApproxParts(60_000_000_000) == [Part(Plain(1), Minute)]
  {
    ApproxFromMinute(60_000_000_000, 0, 1, 0);
    assert [] + [Part(Plain(1), Minute)] + []
      == [Part(Plain(1), Minute)];
  }

  lemma RenderOfOneMinuteExact(p0: Part)
    requires p0 == Part(Grouped(1), Minute)
    ensures Render([p0]) == "1 m"
  {
    var s := "1" + " " + "m";
    assert s == "1 m";
    SmallNr(1);
    RenderOneText(p0, "1", "m");
  }

  lemma RenderOfOneMinuteApprox(p0: Part)
    requires p0 == Part(Plain(1), Minute)
    ensures Render([p0]) == "1 m"
  {
    var s := "1" + " " + "m";
    assert s == "1 m";
    RenderOneText(p0, "1", "m");
  }

  /** Exactly one minute. */
  lemma TimeOneMinuteRenderFixture()
    ensures FormatTimeNsExact(60_000_000_000) == "1 m"
    ensures FormatTimeNs(60_000_000_000) == "1 m"
  {
    ExactPartsOfOneMinute();
    RenderOfOneMinuteExact(Part(Grouped(1), Minute));
    ApproxPartsOfOneMinute();
    RenderOfOneMinuteApprox(Part(Plain(1), Minute));
  }

  lemma ExactPartsOfMinuteSeconds()
    ensures ExactParts(119_000_000_000) == [Part(Grouped(1), Minute), Part(Grouped(59), Sec)]
  {
    var ps := [Part(Grouped(1), Minute), Part(Grouped(59), Sec)];
    assert Component(0, Day)
      + (Component(0, Hour)
      + (Component(1, Minute)
      + (Component(59, Sec)
      + (Component(0, Ms)
      + (Component(0, Us)
      + (Component(0, Ns)))))))
      == ps;
    assert ExactParts(119_000_000_000) == ps by {
      ExactPartsDigits(119_000_000_000, 0, 0, 1, 59, 0, 0, 0);
    }
  }

  lemma ApproxPartsOfMinuteSeconds()
    ensures ApproxParts(119_000_000_000) == [Part(Plain(1), Minute), Part(Plain(59), Sec)]
  {
    ApproxFromMinute(119_000_000_000, 0, 1, 59_000_000_000);
    LastPartWhole(59_000_000_000, Sec, 59);
    assert [] + [Part(Plain(1), Minute)] + [Part(Plain(59), Sec)]
      == [Part(Plain(1), Minute), Part(Plain(59), Sec)];
  }

  lemma RenderOfMinuteSecondsExactFromSec(p0: Part)
    requires p0 == Part(Grouped(59), Sec)
    ensures Render([p0]) == "59 s"
  {
    var s := "59" + " " + "s";
    assert s == "59 s";
    SmallNr(59);
    DigitsOf59();
    RenderOneText(p0, "59", "s");
  }

  lemma RenderOfMinuteSecondsExact(p0: Part, p1: Part)
    requires p0 == Part(Grouped(1), Minute)
    requires p1 == Part(Grouped(59), Sec)
    ensures Render([p0, p1]) == "1 m 59 s"
  {
    var rest := "59 s";
    var s := "1" + " " + "m" + " " + rest;
    assert s == "1 m 59 s";
    SmallNr(1);
    RenderOfMinuteSecondsExactFromSec(p1);
    RenderConsText(p0, [p1], "1", "m", rest);
    assert [p0] + [p1] == [p0, p1];
  }

  lemma RenderOfMinuteSecondsApproxFromSec(p0: Part)
    requires p0 == Part(Plain(59), Sec)
    ensures Render([p0]) == "59 s"
  {
    var s := "59" + " " + "s";
    assert s == "59 s";
    DigitsOf59();
    RenderOneText(p0, "59", "s");
  }

  lemma RenderOfMinuteSecondsApprox(p0: Part, p1: Part)
    requires p0 == Part(Plain(1), Minute)
    requires p1 == Part(Plain(59), Sec)
    ensures Render([p0, p1]) == "1 m 59 s"
  {
    var rest := "59 s";
    var s := "1" + " " + "m" + " " + rest;
    assert s == "1 m 59 s";
    RenderOfMinuteSecondsApproxFromSec(p1);
    RenderConsText(p0, [p1], "1", "m", rest);
    assert [p0] + [p1] == [p0, p1];
  }

  /** A minute and whole seconds. */
  lemma TimeMinuteSecondsRenderFixture()
    ensures FormatTimeNsExact(119_000_000_000) == "1 m 59 s"
    ensures FormatTimeNs(119_000_000_000) == "1 m 59 s"
  {
    ExactPartsOfMinuteSeconds();
    RenderOfMinuteSecondsExact(Part(Grouped(1), Minute), Part(Grouped(59), Sec));
    ApproxPartsOfMinuteSeconds();
    RenderOfMinuteSecondsApprox(Part(Plain(1), Minute), Part(Plain(59), Sec));
  }

  lemma ExactPartsOfMinuteMillis()
    ensures ExactParts(119_123_000_000) == [Part(Grouped(1), Minute), Part(Grouped(59), Sec),
      Part(Grouped(123), Ms)]
  {
    var ps := [Part(Grouped(1), Minute), Part(Grouped(59), Sec),
      Part(Grouped(123), Ms)];
    assert Component(0, Day)
      + (Component(0, Hour)
      + (Component(1, Minute)
      + (Component(59, Sec)
      + (Component(123, Ms)
      + (Component(0, Us)
      + (Component(0, Ns)))))))
      == ps;
    assert ExactParts(119_123_000_000) == ps by {
      ExactPartsDigits(119_123_000_000, 0, 0, 1, 59, 123, 0, 0);
    }
  }

  lemma ApproxPartsOfMinuteMillis()
    ensures ApproxParts(119_123_000_000) == [Part(Plain(1), Minute), Part(Milli(59_123), Sec)]
  {
    ApproxFromMinute(119_123_000_000, 0, 1, 59_123_000_000);
    LastPartMilli(59_123_000_000, Sec, 59_123);
    assert [] + [Part(Plain(1), Minute)] + [Part(Milli(59_123), Sec)]
      == [Part(Plain(1), Minute), Part(Milli(59_123), Sec)];
  }

  lemma RenderOfMinuteMillisExactFromSec(p0: Part, p1: Part)
    requires p0 == Part(Grouped(59), Sec)
    requires p1 == Part(Grouped(123), Ms)
    ensures Render([p0, p1]) == "59 s 123 ms"
  {
    var rest := "123 ms";
    var s := "59" + " " + "s" + " " + rest;
    assert s == "59 s 123 ms";
    SmallNr(59);
    DigitsOf59();
    RenderOfMillisExact(p1);
    RenderConsText(p0, [p1], "59", "s", rest);
    assert [p0] + [p1] == [p0, p1];
  }

  lemma RenderOfMinuteMillisExact(p0: Part, p1: Part, p2: Part)
    requires p0 == Part(Grouped(1), Minute)
    requires p1 == Part(Grouped(59), Sec)
    requires p2 == Part(Grouped(123), Ms)
    ensures Render([p0, p1, p2]) == "1 m 59 s 123 ms"
  {
    var rest := "59 s 123 ms";
    var s := "1" + " " + "m" + " " + rest;
    assert s == "1 m 59 s 123 ms";
    SmallNr(1);
    RenderOfMinuteMillisExactFromSec(p1, p2);
    RenderConsText(p0, [p1, p2], "1", "m", rest);
    assert [p0] + [p1, p2] == [p0, p1, p2];
  }

  lemma RenderOfMinuteMillisApproxFromSec(p0: Part)
    requires p0 == Part(Milli(59_123), Sec)
    ensures Render([p0]) == "59.123 s"
  {
    var s := "59.123" + " " + "s";
    assert s == "59.123 s";
    DigitsOf59();
    DigitsOf1234567();
    MilliText(59_123, 59, 123, "59", "123");
    RenderOneText(p0, "59.123", "s");
  }

  lemma RenderOfMinuteMillisApprox(p0: Part, p1: Part)
    requires p0 == Part(Plain(1), Minute)
    requires p1 == Part(Milli(59_123), Sec)
    ensures Render([p0, p1]) == "1 m 59.123 s"
  {
    var rest := "59.123 s";
    var s := "1" + " " + "m" + " " + rest;
    assert s == "1 m 59.123 s";
    RenderOfMinuteMillisApproxFromSec(p1);
    RenderConsText(p0, [p1], "1", "m", rest);
    assert [p0] + [p1] == [p0, p1];
  }

  /** Milliseconds past a minute become the seconds' fraction. */
  lemma TimeMinuteMillisRenderFixture()
    ensures FormatTimeNsExact(119_123_000_000) == "1 m 59 s 123 ms"
    ensures FormatTimeNs(119_123_000_000) == "1 m 59.123 s"
  {
    ExactPartsOfMinuteMillis();
    RenderOfMinuteMillisExact(Part(Grouped(1), Minute), Part(Grouped(59), Sec),
      Part(Grouped(123), Ms));
    ApproxPartsOfMinuteMillis();
    RenderOfMinuteMillisApprox(Part(Plain(1), Minute), Part(Milli(59_123), Sec));
  }

  lemma ExactPartsOfHoursMillis()
    ensures ExactParts(7_319_123_000_000) == [Part(Grouped(2), Hour), Part(Grouped(1), Minute),
      Part(Grouped(59), Sec), Part(Grouped(123), Ms)]
  {
    var ps := [Part(Grouped(2), Hour), Part(Grouped(1), Minute),
      Part(Grouped(59), Sec), Part(Grouped(123), Ms)];
    assert Component(0, Day)
      + (Component(2, Hour)
      + (Component(1, Minute)
      + (Component(59, Sec)
      + (Component(123, Ms)
      + (Component(0, Us)
      + (Component(0, Ns)))))))
      == ps;
    assert ExactParts(7_319_123_000_000) == ps by {
      ExactPartsDigits(7_319_123_000_000, 0, 2, 1, 59, 123, 0, 0);
    }
  }

  lemma ApproxPartsOfHoursMillis()
    ensures ApproxParts(7_319_123_000_000) == [Part(Plain(2), Hour), Part(Plain(1), Minute),
      Part(Milli(59_123), Sec)]
  {
    ApproxFromMinute(7_319_123_000_000, 2, 1, 59_123_000_000);
    LastPartMilli(59_123_000_000, Sec, 59_123);
    assert [Part(Plain(2), Hour)] + [Part(Plain(1), Minute)] + [Part(Milli(59_123), Sec)]
      == [Part(Plain(2), Hour), Part(Plain(1), Minute),
        Part(Milli(59_123), Sec)];
  }

  lemma RenderOfHoursMillisExact(p0: Part, p1: Part, p2: Part, p3: Part)
    requires p0 == Part(Grouped(2), Hour)
    requires p1 == Part(Grouped(1), Minute)
    requires p2 == Part(Grouped(59), Sec)
    requires p3 == Part(Grouped(123), Ms)
    ensures Render([p0, p1, p2, p3]) == "2 h 1 m 59 s 123 ms"
  {
    var rest := "1 m 59 s 123 ms";
    var s := "2" + " " + "h" + " " + rest;
    assert s == "2 h 1 m 59 s 123 ms";
    SmallNr(2);
    RenderOfMinuteMillisExact(p1, p2, p3);
    RenderConsText(p0, [p1, p2, p3], "2", "h", rest);
    assert [p0] + [p1, p2, p3] == [p0, p1, p2, p3];
  }

  lemma RenderOfHoursMillisApprox(p0: Part, p1: Part, p2: Part)
    requires p0 == Part(Plain(2), Hour)
    requires p1 == Part(Plain(1), Minute)
    requires p2 == Part(Milli(59_123), Sec)
    ensures Render([p0, p1, p2]) == "2 h 1 m 59.123 s"
  {
    var rest := "1 m 59.123 s";
    var s := "2" + " " + "h" + " " + rest;
    assert s == "2 h 1 m 59.123 s";
    RenderOfMinuteMillisApprox(p1, p2);
    RenderConsText(p0, [p1, p2], "2", "h", rest);
    assert [p0] + [p1, p2] == [p0, p1, p2];
  }

  /** Hours come before minutes and seconds. */
  lemma TimeHoursMillisRenderFixture()
    ensures FormatTimeNsExact(7_319_123_000_000) == "2 h 1 m 59 s 123 ms"
    ensures FormatTimeNs(7_319_123_000_000) == "2 h 1 m 59.123 s"
  {
    ExactPartsOfHoursMillis();
    RenderOfHoursMillisExact(Part(Grouped(2), Hour), Part(Grouped(1), Minute),
      Part(Grouped(59), Sec), Part(Grouped(123), Ms));
    ApproxPartsOfHoursMillis();
    RenderOfHoursMillisApprox(Part(Plain(2), Hour), Part(Plain(1), Minute),
      Part(Milli(59_123), Sec));
  }

  lemma ExactPartsOfTwoHours()
    ensures ExactParts(7_200_000_000_000) == [Part(Grouped(2), Hour)]
  {
    var ps := [Part(Grouped(2), Hour)];
    assert Component(0, Day)
      + (Component(2, Hour)
      + (Component(0, Minute)
      + (Component(0, Sec)
      + (Component(0, Ms)
      + (Component(0, Us)
      + (Component(0, Ns)))))))
      == ps;
    assert ExactParts(7_200_000_000_000) == ps by {
      ExactPartsDigits(7_200_000_000_000, 0, 2, 0, 0, 0, 0, 0);
    }
  }

  lemma ApproxPartsOfTwoHours()
    ensures ApproxParts(7_200_000_000_000) == [Part(Plain(2), Hour)]
  {
    ApproxFromMinute(7_200_000_000_000, 2, 0, 0);
    assert [Part(Plain(2), Hour)] + [] + []
      == [Part(Plain(2), Hour)];
  }

  lemma RenderOfTwoHoursExact(p0: Part)
    requires p0 == Part(Grouped(2), Hour)
    ensures Render([p0]) == "2 h"
  {
    var s := "2" + " " + "h";
    assert s == "2 h";
    SmallNr(2);
    RenderOneText(p0, "2", "h");
  }

  lemma RenderOfTwoHoursApprox(p0: Part)
    requires p0 == Part(Plain(2), Hour)
    ensures Render([p0]) == "2 h"
  {
    var s := "2" + " " + "h";
    assert s == "2 h";
    RenderOneText(p0, "2", "h");
  }

  /** Zero minutes and seconds are left out. */
  lemma TimeTwoHoursRenderFixture()
    ensures FormatTimeNsExact(7_200_000_000_000) == "2 h"
    ensures FormatTimeNs(7_200_000_000_000) == "2 h"
  {
    ExactPartsOfTwoHours();
    RenderOfTwoHoursExact(Part(Grouped(2), Hour));
    ApproxPartsOfTwoHours();
    RenderOfTwoHoursApprox(Part(Plain(2), Hour));
  }

  lemma ExactPartsOfDaysMillis()
    ensures ExactParts(266_519_123_000_000) == [Part(Grouped(3), Day), Part(Grouped(2), Hour),
      Part(Grouped(1), Minute), Part(Grouped(59), Sec),
      Part(Grouped(123), Ms)]
  {
    var ps := [Part(Grouped(3), Day), Part(Grouped(2), Hour),
      Part(Grouped(1), Minute), Part(Grouped(59), Sec),
      Part(Grouped(123), Ms)];
    assert Component(3, Day)
      + (Component(2, Hour)
      + (Component(1, Minute)
      + (Component(59, Sec)
      + (Component(123, Ms)
      + (Component(0, Us)
      + (Component(0, Ns)))))))
      == ps;
    assert ExactParts(266_519_123_000_000) == ps by {
      ExactPartsDigits(266_519_123_000_000, 3, 2, 1, 59, 123, 0, 0);
    }
  }

  lemma ApproxPartsOfDaysMillis()
    ensures ApproxParts(266_519_123_000_000) == [Part(Plain(74), Hour), Part(Plain(1), Minute),
      Part(Milli(59_123), Sec)]
  {
    ApproxFromMinute(266_519_123_000_000, 74, 1, 59_123_000_000);
    LastPartMilli(59_123_000_000, Sec, 59_123);
    assert [Part(Plain(74), Hour)] + [Part(Plain(1), Minute)] + [Part(Milli(59_123), Sec)]
      == [Part(Plain(74), Hour), Part(Plain(1), Minute),
        Part(Milli(59_123), Sec)];
  }

  lemma RenderOfDaysMillisExact(p0: Part, p1: Part, p2: Part, p3: Part, p4: Part)
    requires p0 == Part(Grouped(3), Day)
    requires p1 == Part(Grouped(2), Hour)
    requires p2 == Part(Grouped(1), Minute)
    requires p3 == Part(Grouped(59), Sec)
    requires p4 == Part(Grouped(123), Ms)
    ensures Render([p0, p1, p2, p3, p4]) == "3 d 2 h 1 m 59 s 123 ms"
  {
    var rest := "2 h 1 m 59 s 123 ms";
    var s := "3" + " " + "d" + " " + rest;
    assert s == "3 d 2 h 1 m 59 s 123 ms";
    SmallNr(3);
    RenderOfHoursMillisExact(p1, p2, p3, p4);
    RenderConsText(p0, [p1, p2, p3, p4], "3", "d", rest);
    assert [p0] + [p1, p2, p3, p4] == [p0, p1, p2, p3, p4];
  }

  lemma RenderOfDaysMillisApprox(p0: Part, p1: Part, p2: Part)
    requires p0 == Part(Plain(74), Hour)
    requires p1 == Part(Plain(1), Minute)
    requires p2 == Part(Milli(59_123), Sec)
    ensures Render([p0, p1, p2]) == "74 h 1 m 59.123 s"
  {
    var rest := "1 m 59.123 s";
    var s := "74" + " " + "h" + " " + rest;
    assert s == "74 h 1 m 59.123 s";
    DigitsOf74();
    RenderOfMinuteMillisApprox(p1, p2);
    RenderConsText(p0, [p1, p2], "74", "h", rest);
    assert [p0] + [p1, p2] == [p0, p1, p2];
  }

  /** The exact form counts days; the approximate form folds them into hours. */
  lemma TimeDaysMillisRenderFixture()
    ensures FormatTimeNsExact(266_519_123_000_000) == "3 d 2 h 1 m 59 s 123 ms"
    ensures FormatTimeNs(266_519_123_000_000) == "74 h 1 m 59.123 s"
  {
    ExactPartsOfDaysMillis();
    RenderOfDaysMillisExact(Part(Grouped(3), Day), Part(Grouped(2), Hour),
      Part(Grouped(1), Minute), Part(Grouped(59), Sec),
      Part(Grouped(123), Ms));
    ApproxPartsOfDaysMillis();
    RenderOfDaysMillisApprox(Part(Plain(74), Hour), Part(Plain(1), Minute),
      Part(Milli(59_123), Sec));
  }

  lemma ExactPartsOfDaysHours()
    ensures ExactParts(266_400_000_000_000) == [Part(Grouped(3), Day), Part(Grouped(2), Hour)]
  {
    var ps := [Part(Grouped(3), Day), Part(Grouped(2), Hour)];
    assert Component(3, Day)
      + (Component(2, Hour)
      + (Component(0, Minute)
      + (Component(0, Sec)
      + (Component(0, Ms)
      + (Component(0, Us)
      + (Component(0, Ns)))))))
      == ps;
    assert ExactParts(266_400_000_000_000) == ps by {
      ExactPartsDigits(266_400_000_000_000, 3, 2, 0, 0, 0, 0, 0);
    }
  }

  lemma ApproxPartsOfDaysHours()
    ensures ApproxParts(266_400_000_000_000) == [Part(Plain(74), Hour)]
  {
    ApproxFromMinute(266_400_000_000_000, 74, 0, 0);
    assert [Part(Plain(74), Hour)] + [] + []
      == [Part(Plain(74), Hour)];
  }

  lemma RenderOfDaysHoursExact(p0: Part, p1: Part)
    requires p0 == Part(Grouped(3), Day)
    requires p1 == Part(Grouped(2), Hour)
    ensures Render([p0, p1]) == "3 d 2 h"
  {
    var rest := "2 h";
    var s := "3" + " " + "d" + " " + rest;
    assert s == "3 d 2 h";
    SmallNr(3);
    RenderOfTwoHoursExact(p1);
    RenderConsText(p0, [p1], "3", "d", rest);
    assert [p0] + [p1] == [p0, p1];
  }

  lemma RenderOfDaysHoursApprox(p0: Part)
    requires p0 == Part(Plain(74), Hour)
    ensures Render([p0]) == "74 h"
  {
    var s := "74" + " " + "h";
    assert s == "74 h";
    DigitsOf74();
    RenderOneText(p0, "74", "h");
  }

  /** Days and hours with nothing below them. */
  lemma TimeDaysHoursRenderFixture()
    ensures FormatTimeNsExact(266_400_000_000_000) == "3 d 2 h"
    ensures FormatTimeNs(266_400_000_000_000) == "74 h"
  {
    ExactPartsOfDaysHours();
    RenderOfDaysHoursExact(Part(Grouped(3), Day), Part(Grouped(2), Hour));
    ApproxPartsOfDaysHours();
    RenderOfDaysHoursApprox(Part(Plain(74), Hour));
  }

  lemma ExactPartsOfManyDays()
    ensures ExactParts(106_624_800_000_000_000) == [Part(Grouped(1234), Day), Part(Grouped(2), Hour)]
  {
    var ps := [Part(Grouped(1234), Day), Part(Grouped(2), Hour)];
    assert Component(1234, Day)
      + (Component(2, Hour)
      + (Component(0, Minute)
      + (Component(0, Sec)
      + (Component(0, Ms)
      + (Component(0, Us)
      + (Component(0, Ns)))))))
      == ps;
    assert ExactParts(106_624_800_000_000_000) == ps by {
      ExactPartsDigits(106_624_800_000_000_000, 1234, 2, 0, 0, 0, 0, 0);
    }
  }

  lemma ApproxPartsOfManyDays()
    ensures ApproxParts(106_624_800_000_000_000) == [Part(Plain(29_618), Hour)]
  {
    ApproxFromMinute(106_624_800_000_000_000, 29_618, 0, 0);
    assert [Part(Plain(29_618), Hour)] + [] + []
      == [Part(Plain(29_618), Hour)];
  }

  lemma RenderOfManyDaysExact(p0: Part, p1: Part)
    requires p0 == Part(Grouped(1234), Day)
    requires p1 == Part(Grouped(2), Hour)
    ensures Render([p0, p1]) == "1,234 d 2 h"
  {
    var rest := "2 h";
    var s := "1,234" + " " + "d" + " " + rest;
    assert s == "1,234 d 2 h";
    GroupedOf1234();
    RenderOfTwoHoursExact(p1);
    RenderConsText(p0, [p1], "1,234", "d", rest);
    assert [p0] + [p1] == [p0, p1];
  }

  lemma RenderOfManyDaysApprox(p0: Part)
    requires p0 == Part(Plain(29_618), Hour)
    ensures Render([p0]) == "29618 h"
  {
    var s := "29618" + " " + "h";
    assert s == "29618 h";
    DigitsOf29618();
    RenderOneText(p0, "29618", "h");
  }

  /** Exact day counts are grouped with commas; approximate hours are not. */
  lemma TimeManyDaysRenderFixture()
    ensures FormatTimeNsExact(106_624_800_000_000_000) == "1,234 d 2 h"
    ensures FormatTimeNs(106_624_800_000_000_000) == "29618 h"
  {
    ExactPartsOfManyDays();
    RenderOfManyDaysExact(Part(Grouped(1234), Day), Part(Grouped(2), Hour));
    ApproxPartsOfManyDays();
    RenderOfManyDaysApprox(Part(Plain(29_618), Hour));
  }

}
