/** Laws of the value parser and formatter: the parsers read back what the
    formatters write, byte suffix synonyms and clamping, the leniency of the
    percentage reader, and the shape of both duration renderings. */
module FmtStrLaws {
  import opened Wrappers
  import opened Text
  import opened FmtStr

  /** Two readings agree on success and on the value read; their error
      messages may differ, since they quote the text. */
  predicate SameReading<T(==)>(a: Result<T, FmtError>, b: Result<T, FmtError>) {
    a.Ok? == b.Ok? && (a.Ok? ==> a.value == b.value)
  }

  // ==================================================================
  // Numbers

  /** Text made of digits and '.' only is left alone by comma removal and
      by stripping. */
  lemma CleanText(t: string)
    requires forall i :: 0 <= i < |t| ==> IsDigit(t[i]) || t[i] == '.'
    ensures Strip(StripCommas(t)) == t
  {
    FilterKeepsAll(NotComma, t);
    StripOfTrimmed(t);
  }

  /** Plain decimal digits read back as the integer they denote. */
  lemma DigitsRead(n: nat)
    ensures TextToNr(NatToDigits(n)) == Ok(IntNr(n))
  {
    var d := NatToDigits(n);
    CleanText(d);
    ReadsAsInt(d);
    DigitsRoundTrip(n);
  }

  /** `text_to_nr` reads back what `format_nr` writes. */
  lemma FormatNrRoundTrip(n: nat)
    ensures TextToNr(FormatNr(n)) == Ok(IntNr(n))
  {
    var d := NatToDigits(n);
    StripOfTrimmed(d);
    ReadsAsInt(FormatNr(n));
    DigitsRoundTrip(n);
  }

  /** Commas are ignored wherever they stand. */
  lemma TextToNrIgnoresCommas(s: string)
    ensures TextToNr(StripCommas(s)).Ok? == TextToNr(s).Ok?
    ensures TextToNr(s).Ok? ==> NumberValue(TextToNr(StripCommas(s)).value) == NumberValue(TextToNr(s).value)
  {
    FilterKeepsAll(NotComma, StripCommas(s));
  }

  lemma DecimalChars(a: string, b: string)
    requires AllDigits(a) && AllDigits(b)
    ensures Strip(StripCommas(a + "." + b)) == a + "." + b
  {
    var t := a + "." + b;
    forall i | 0 <= i < |t|
      ensures IsDigit(t[i]) || t[i] == '.'
    {
      if i < |a| {
        assert t[i] == a[i];
      } else if i > |a| {
        assert t[i] == b[i - |a| - 1];
      }
    }
    CleanText(t);
  }

  lemma DecimalText(a: string, b: string)
    requires AllDigits(a) && AllDigits(b)
    ensures var t := a + "." + b;
      && '.' in t && IndexOf(t, '.') == |a|
      && t[..|a|] == a && t[|a| + 1..] == b
  {
    var t := a + "." + b;
    assert t[|a|] == '.';
    assert t[..|a|] == a;
    assert '.' !in a;
    IndexOfAt(t, '.', |a|);
    assert t[|a| + 1..] == b;
  }

  lemma ParseDecimalOf(a: string, b: string)
    requires |a| >= 1 && AllDigits(a) && AllDigits(b)
    ensures ParseDecimal(a + "." + b) == Ok(FloatNr(DecimalValue(a, b)))
  {
    DecimalText(a, b);
  }

  /** Only unsigned plain decimals read: once the commas and the
      surrounding whitespace are gone, a readable text holds nothing but
      digits and '.', so signs, exponents, `inf` and `nan` are refused. */
  lemma ReadableIsPlainDecimal(s: string)
    requires TextToNr(s).Ok?
    ensures var t := Strip(StripCommas(s));
      forall k :: 0 <= k < |t| ==> IsDigit(t[k]) || t[k] == '.'
  {
    var t := Strip(StripCommas(s));
    if '.' in t {
      var i := IndexOf(t, '.');
      forall k | 0 <= k < |t|
        ensures IsDigit(t[k]) || t[k] == '.'
      {
        if k < i {
          assert t[k] == t[..i][k];
        } else if k > i {
          assert t[k] == t[i + 1..][k - i - 1];
        }
      }
    }
  }

  /** `digits '.' digits` reads as the decimal fraction it spells. */
  lemma DecimalRead(a: string, b: string)
    requires |a| >= 1 && AllDigits(a) && AllDigits(b)
    ensures TextToNr(a + "." + b) == Ok(FloatNr(DecimalValue(a, b)))
  {
    DecimalChars(a, b);
    ParseDecimalOf(a, b);
    ReadsAsDecimal(a + "." + b);
  }

  /** Python's `int()` reads back `str(i)` for every integer. */
  lemma IntRoundTrip(i: int)
    ensures TextToInt(IntToText(i)) == Ok(i)
  {
    var t := IntToText(i);
    if i < 0 {
      var d := NatToDigits(-i);
      assert t[1..] == d;
      StripOfTrimmed(t);
      DigitsRoundTrip(-i);
    } else {
      StripOfTrimmed(t);
      DigitsRoundTrip(i);
    }
  }

  // ==================================================================
  // Byte sizes

  lemma {:induction false} TrailingLettersOf(p: string, u: string)
    requires p == [] || !IsLetter(p[|p| - 1])
    requires forall i :: 0 <= i < |u| ==> IsLetter(u[i])
    ensures TrailingLetters(p + u) == |u|
    decreases |u|
  {
    if u == [] {
      assert p + u == p;
    } else {
      var s := p + u;
      assert s[..|s| - 1] == p + u[..|u| - 1];
      TrailingLettersOf(p, u[..|u| - 1]);
    }
  }

  /** Text ending in a run of letters splits into the number before the run
      and the unit the run spells. */
  lemma BytesSplit(p: string, u: string)
    requires p == [] || !IsLetter(p[|p| - 1])
    requires forall i :: 0 <= i < |u| ==> IsLetter(u[i])
    requires p + u != "min" && p + u != "max"
    ensures TextToBytes(p + u) == ScaledBytes(p, u)
  {
    var s := p + u;
    TrailingLettersOf(p, u);
    assert s[..|s| - |u|] == p;
    assert s[|s| - |u|..] == u;
  }

  /** Every single-letter byte unit and its IEC spelling are synonyms, with
      or without whitespace before the unit: "2 K" and "2 KiB" read alike. */
  lemma ByteUnitSynonyms(p: string, letter: char)
    requires letter in "KMGTPE"
    requires p == [] || !IsLetter(p[|p| - 1])
    ensures TextToBytes(p + [letter]) == TextToBytes(p + [letter] + "iB")
  {
    var u1 := [letter];
    var u2 := [letter] + "iB";
    assert p + [letter] + "iB" == p + u2;
    assert (p + u1)[|p + u1| - 1] == letter;
    assert (p + u2)[|p + u2| - 1] == 'B';
    BytesSplit(p, u1);
    BytesSplit(p, u2);
    ExponentSynonyms(letter);
  }

  lemma ExponentSynonyms(letter: char)
    requires letter in "KMGTPE"
    ensures ByteUnitExponent([letter]) == ByteUnitExponent([letter] + "iB")
  {
  }

  lemma {:induction false} RealOfProduct(n: nat, k: nat)
    ensures (n * k) as real == n as real * k as real
  {
    if n > 0 {
      RealOfProduct(n - 1, k);
      assert n * k == (n - 1) * k + k;
    }
  }

  /** The bytes `x` stands for with a unit of `1024^e`: truncated, then clamped. */
  lemma ScaledBytesOfInt(number: string, unit: string, n: nat, e: nat)
    requires TextToNr(number) == Ok(IntNr(n))
    requires (if unit == [] then Ok(0) else ByteUnitExponent(unit)) == Ok(e)
    ensures ScaledBytes(number, unit) == Ok(Clamp(n * Pow1024(e)))
  {
    var k := Pow1024(e);
    assert ScaledFloor(IntNr(n), k) == n * k by {
      IntScaledFloor(n, k);
    }
  }

  /** A whole number scales without truncation. */
  lemma IntScaledFloor(n: nat, k: nat)
    ensures ScaledFloor(IntNr(n), k) == n * k
  {
    RealOfProduct(n, k);
    assert NumberValue(IntNr(n)) * k as real == (n * k) as real;
  }

  /** Whitespace between a number and what follows it does not change it. */
  lemma DigitsSpaceRead(n: nat)
    ensures TextToNr(NatToDigits(n) + " ") == Ok(IntNr(n))
  {
    var d := NatToDigits(n);
    FilterAppend(NotComma, d, " ");
    FilterKeepsAll(NotComma, d);
    assert StripCommas(" ") == " ";
    StripTrailingSpace(d);
    StripOfTrimmed(d);
    ReadsAsInt(d + " ");
    DigitsRoundTrip(n);
  }

  /** `n` followed by a unit is `n * 1024^e` bytes, clamped to ULONG_MAX. */
  lemma BytesOfUnit(n: nat, u: string, e: nat)
    requires ByteUnitExponent(u) == Ok(e)
    ensures TextToBytes(NatToDigits(n) + " " + u) == Ok(Clamp(n * Pow1024(e)))
  {
    var d := NatToDigits(n);
    assert forall i :: 0 <= i < |u| ==> IsLetter(u[i]);
    var s := d + " " + u;
    assert s[|s| - 1] == u[|u| - 1];
    BytesSplit(d + " ", u);
    DigitsSpaceRead(n);
    ScaledBytesOfInt(d + " ", u, n, e);
  }

  /** Plain numbers are raw byte counts, clamped to ULONG_MAX. */
  lemma BytesOfGrouped(n: nat)
    ensures TextToBytes(FormatNr(n)) == Ok(Clamp(n))
  {
    var s := FormatNr(n);
    assert !IsLetter(s[|s| - 1]);
    assert s != "min" && s != "max" by {
      assert IsDigit(s[0]);
    }
    assert s + [] == s;
    BytesSplit(s, []);
    FormatNrRoundTrip(n);
    ScaledBytesOfInt(s, [], n, 0);
  }

  // ==================================================================
  // Percentages

  /** Texts that agree once commas and surrounding whitespace are gone read alike. */
  lemma SameCleanText(s1: string, s2: string)
    requires Strip(StripCommas(s1)) == Strip(StripCommas(s2))
    ensures SameReading(TextToNr(s1), TextToNr(s2))
  {
    var t := Strip(StripCommas(s1));
    if '.' in t {
      ReadsAsDecimal(s1);
      ReadsAsDecimal(s2);
    } else if t != [] && AllDigits(t) {
      ReadsAsInt(s1);
      ReadsAsInt(s2);
    }
  }

  /** Whitespace before '%' does not matter. */
  lemma PercentSpaceBeforeMarker(x: string, other: string -> Result<real, FmtError>)
    ensures SameReading(TextToPercent(x + " %", other), TextToPercent(x + "%", other))
  {
    assert (x + " %")[..|x| + 1] == x + " ";
    assert (x + "%")[..|x|] == x;
    FilterAppend(NotComma, x, " ");
    assert StripCommas(" ") == " ";
    StripTrailingSpace(StripCommas(x));
    SameCleanText(x + " ", x);
  }

  /** Commas before '%' do not matter, wherever they stand. */
  lemma PercentIgnoresCommas(x: string, other: string -> Result<real, FmtError>)
    ensures SameReading(TextToPercent(StripCommas(x) + "%", other), TextToPercent(x + "%", other))
  {
    assert (x + "%")[..|x|] == x;
    assert (StripCommas(x) + "%")[..|StripCommas(x)|] == StripCommas(x);
    FilterKeepsAll(NotComma, StripCommas(x));
  }

  /** A grouped number followed by '%' is that many percent. */
  lemma PercentOfGrouped(n: nat, other: string -> Result<real, FmtError>)
    ensures TextToPercent(FormatNr(n) + "%", other) == Ok(n as real)
  {
    assert (FormatNr(n) + "%")[..|FormatNr(n)|] == FormatNr(n);
    FormatNrRoundTrip(n);
  }

  // ==================================================================
  // Durations: reading numbers back

  /** A bare number is already in the target unit. */
  lemma BareNumberInTargetUnit(n: nat, target: TimeUnit)
    ensures TextToTime(NatToDigits(n), target) == Ok(n)
  {
    var d := NatToDigits(n);
    assert IsWord(d);
    FieldsOfJoin([d]);
    DigitsRead(n);
    assert d != "min" && d != "max" by {
      assert IsDigit(d[0]);
    }
  }

  lemma UnitNameRead(u: TimeUnit)
    ensures UnitOfName(UnitName(u)) == Ok(u)
  {
  }

  /** The thousandths `q` shown with three decimals read back as a decimal. */
  lemma MilliRead(q: nat)
    ensures TextToNr(QuantityText(Milli(q))) == Ok(FloatNr(DecimalValue(NatToDigits(q / 1000), Pad3(q % 1000))))
  {
    DecimalRead(NatToDigits(q / 1000), Pad3(q % 1000));
  }

  /** Three digits after the point are thousandths. */
  lemma FractionOfPad3(r: nat)
    requires r < 1000
    ensures Fraction(Pad3(r)) == r as real / 1000.0
  {
    var d0, d1, d2 := r / 100, r / 10 % 10, r % 10;
    assert r == 100 * d0 + 10 * d1 + d2;
    FractionOfThree(d0, d1, d2);
  }

  lemma FractionOfThree(d0: nat, d1: nat, d2: nat)
    requires d0 < 10 && d1 < 10 && d2 < 10
    ensures Fraction([DigitChar(d0), DigitChar(d1), DigitChar(d2)]) == (100 * d0 + 10 * d1 + d2) as real / 1000.0
  {
    var b := [DigitChar(d0), DigitChar(d1), DigitChar(d2)];
    assert Fraction(b[1..][1..]) == d2 as real / 10.0 by {
      assert b[1..][1..][1..] == [];
    }
    assert Fraction(b[1..]) == (d1 as real + d2 as real / 10.0) / 10.0;
  }


  lemma MilliValue(q: nat)
    ensures DecimalValue(NatToDigits(q / 1000), Pad3(q % 1000)) == q as real / 1000.0
  {
    DigitsRoundTrip(q / 1000);
    FractionOfPad3(q % 1000);
    assert q == 1000 * (q / 1000) + q % 1000;
  }

  lemma MilliChars(q: nat)
    ensures var t := QuantityText(Milli(q));
      forall i :: 0 <= i < |t| ==> IsNumberChar(t[i])
  {
    var a := NatToDigits(q / 1000);
    var b := Pad3(q % 1000);
    var t := a + "." + b;
    forall i | 0 <= i < |t|
      ensures IsNumberChar(t[i])
    {
      if i < |a| {
        assert t[i] == a[i];
      } else if i > |a| {
        assert t[i] == b[i - |a| - 1];
      }
    }
  }

  lemma MilliNs(q: nat, u: TimeUnit)
    ensures InNs(FloatNr(DecimalValue(NatToDigits(q / 1000), Pad3(q % 1000))), u) == PartNs(Part(Milli(q), u))
  {
    MilliValue(q);
  }

  lemma QuantityChars(x: Quantity)
    ensures |QuantityText(x)| >= 1
    ensures forall i :: 0 <= i < |QuantityText(x)| ==> IsNumberChar(QuantityText(x)[i])
  {
    match x
    case Grouped(n) =>
      var r := FormatNr(n);
      assert CommasPlaced(r);
      assert StripCommas(r) == NatToDigits(n);
    case Plain(n) =>
    case Milli(q) =>
      MilliChars(q);
  }

  lemma NumberCharsWord(t: string)
    requires |t| >= 1
    requires forall i :: 0 <= i < |t| ==> IsNumberChar(t[i])
    ensures IsWord(t)
  {
    forall i | 0 <= i < |t|
      ensures !IsSpace(t[i])
    {
      assert IsNumberChar(t[i]);
    }
  }

  lemma QuantityValue(x: Quantity, u: TimeUnit)
    ensures TextToNr(QuantityText(x)).Ok?
    ensures InNs(TextToNr(QuantityText(x)).value, u) == PartNs(Part(x, u))
  {
    match x
    case Grouped(n) =>
      FormatNrRoundTrip(n);
    case Plain(n) =>
      DigitsRead(n);
    case Milli(q) =>
      MilliRead(q);
      MilliNs(q, u);
  }

  /** Every amount renders as one word of number characters that reads back
      as the nanoseconds its part stands for, whatever the unit. */
  lemma QuantityRead(x: Quantity, u: TimeUnit)
    ensures IsWord(QuantityText(x))
    ensures forall i :: 0 <= i < |QuantityText(x)| ==> IsNumberChar(QuantityText(x)[i])
    ensures TextToNr(QuantityText(x)).Ok?
    ensures InNs(TextToNr(QuantityText(x)).value, u) == PartNs(Part(x, u))
  {
    QuantityChars(x);
    NumberCharsWord(QuantityText(x));
    QuantityValue(x, u);
  }

  lemma UnitNameWord(u: TimeUnit)
    ensures IsWord(UnitName(u))
    ensures NumberPrefix(UnitName(u)) == 0
  {
  }

  lemma {:induction false} TokensAreWords(ps: seq<Part>)
    ensures |Tokens(ps)| == 2 * |ps|
    ensures forall i :: 0 <= i < |Tokens(ps)| ==> IsWord(Tokens(ps)[i])
  {
    if ps != [] {
      var t := Tokens(ps);
      var rest := Tokens(ps[1..]);
      TokensAreWords(ps[1..]);
      QuantityRead(ps[0].amount, ps[0].unit);
      UnitNameWord(ps[0].unit);
      forall i | 0 <= i < |t|
        ensures IsWord(t[i])
      {
        if i >= 2 {
          assert t[i] == rest[i - 2];
        }
      }
    }
  }

  /** One (number, unit) pair, as two fields, followed by more pairs. */
  lemma SumPairsStep(q: string, unit: string, more: seq<string>, x: Number, u: TimeUnit, rest: real, v: real)
    requires NumberPrefix(q) == |q|
    requires TextToNr(q) == Ok(x) && UnitOfName(unit) == Ok(u) && SumPairs(more) == Ok(rest)
    requires v == InNs(x, u) + rest
    ensures SumPairs([q, unit] + more) == Ok(v)
  {
    var t := [q, unit] + more;
    assert t[0] == q && t[1] == unit && t[2..] == more;
  }

  lemma TokensCons(ps: seq<Part>)
    requires ps != []
    ensures Tokens(ps) == [QuantityText(ps[0].amount), UnitName(ps[0].unit)] + Tokens(ps[1..])
    ensures PartsNs(ps) == PartNs(ps[0]) + PartsNs(ps[1..])
  {
  }

  lemma QuantityPrefix(x: Quantity)
    ensures NumberPrefix(QuantityText(x)) == |QuantityText(x)|
  {
    QuantityChars(x);
  }

  /** A part rendered in front of tokens that sum to `r` adds its own nanoseconds. */
  lemma SumPairsOfPart(more: seq<string>, p: Part, r: real, v: real)
    requires SumPairs(more) == Ok(r) && v == PartNs(p) + r
    ensures SumPairs([QuantityText(p.amount), UnitName(p.unit)] + more) == Ok(v)
  {
    var q := QuantityText(p.amount);
    assert TextToNr(q).Ok? && InNs(TextToNr(q).value, p.unit) == PartNs(p) by {
      QuantityValue(p.amount, p.unit);
      assert Part(p.amount, p.unit) == p;
    }
    assert NumberPrefix(q) == |q| by {
      QuantityPrefix(p.amount);
    }
    assert UnitOfName(UnitName(p.unit)) == Ok(p.unit) by {
      UnitNameRead(p.unit);
    }
    SumPairsStep(q, UnitName(p.unit), more, TextToNr(q).value, p.unit, r, v);
  }

  /** The tokens of a rendering sum to the nanoseconds of its parts. */
  lemma {:induction false} SumPairsOfTokens(ps: seq<Part>)
    ensures SumPairs(Tokens(ps)) == Ok(PartsNs(ps))
  {
    if ps == [] {
      assert Tokens(ps) == [];
      assert SumPairs(Tokens(ps)) == Ok(0.0);
    } else {
      var more, r := Tokens(ps[1..]), PartsNs(ps[1..]);
      var q, un := QuantityText(ps[0].amount), UnitName(ps[0].unit);
      TokensCons(ps);
      SumPairsOfTokens(ps[1..]);
      SumPairsOfPart(more, ps[0], r, PartsNs(ps));
    }
  }

  /** Any nonempty rendering reads back, in any target unit, as the whole
      number of target units in the nanoseconds its parts stand for. */
  lemma ReadBack(ps: seq<Part>, target: TimeUnit)
    requires |ps| >= 1
    ensures TextToTime(Render(ps), target) == Ok(InUnits(PartsNs(ps), target))
  {
    var toks := Tokens(ps);
    var s := Render(ps);
    TokensAreWords(ps);
    assert s != "min" && s != "max" by {
      JoinHasSpace(toks);
      assert ' ' !in "min" && ' ' !in "max";
    }
    assert Fields(s) == toks by {
      FieldsOfJoin(toks);
    }
    assert !IsBareNumber(toks) && toks != [];
    assert SumPairs(toks) == Ok(PartsNs(ps)) by {
      SumPairsOfTokens(ps);
    }
  }

  // ==================================================================
  // The exact rendering

  lemma {:induction false} PartsNsAppend(a: seq<Part>, b: seq<Part>)
    ensures PartsNs(a + b) == PartsNs(a) + PartsNs(b)
  {
    if a == [] {
      assert a + b == b;
    } else {
      assert (a + b)[0] == a[0];
      assert (a + b)[1..] == a[1..] + b;
      PartsNsAppend(a[1..], b);
    }
  }

  /** Whole units and the remainder make up the total. */
  lemma DivMod(ns: nat, u: TimeUnit)
    ensures ns == (ns / UnitNs(u)) * UnitNs(u) + ns % UnitNs(u)
    ensures ns % UnitNs(u) < UnitNs(u)
  {
  }

  /** `n` whole units of `u` are `n * UnitNs(u)` nanoseconds. */
  lemma ScaleNat(n: nat, u: TimeUnit)
    ensures Scale(n as real, u) == (n * UnitNs(u)) as real
  {
    match u
    case Ns =>
    case Us =>
    case Ms =>
    case Sec =>
    case Minute =>
    case Hour =>
    case Day =>
  }

  /** A whole number of nanoseconds truncates to its integer quotient. */
  lemma InUnitsOfNat(ns: nat, u: TimeUnit)
    ensures InUnits(ns as real, u) == ns / UnitNs(u)
  {
    var n := InUnits(ns as real, u);
    var q := ns / UnitNs(u);
    DivMod(ns, u);
    ScaleNat(q, u);
    ScaleNat(q + 1, u);
    match u
    case Ns =>
    case Us =>
    case Ms =>
    case Sec =>
    case Minute =>
    case Hour =>
    case Day =>
  }

  /** The leading part and the remainder make up the total. */
  lemma LeadingNs(ns: nat, u: TimeUnit)
    ensures PartsNs(Leading(ns, u)) + (ns % UnitNs(u)) as real == ns as real
  {
    var c := ns / UnitNs(u);
    var whole := c * UnitNs(u);
    DivMod(ns, u);
    if c > 0 {
      ScaleNat(c, u);
      assert PartsNs([Part(Grouped(c), u)]) == whole as real;
    } else {
      assert whole == 0;
    }
  }

  lemma {:induction false} BreakdownSum(ns: nat, units: seq<TimeUnit>)
    requires |units| >= 1 && units[|units| - 1] == Ns
    ensures PartsNs(Breakdown(ns, units)) == ns as real
    decreases |units|
  {
    var u := units[0];
    var r := ns % UnitNs(u);
    var rest := Breakdown(r, units[1..]);
    PartsNsAppend(Leading(ns, u), rest);
    if |units| == 1 {
      assert rest == [];
    } else {
      BreakdownSum(r, units[1..]);
    }
    LeadingNs(ns, u);
  }

  /** Units strictly decrease and whatever follows a part is worth less
      than one of that part's unit. */
  predicate Canonical(r: seq<Part>) {
    && PartsDescending(r)
    && forall k :: 0 <= k < |r| ==> PartsNs(r[k + 1..]) < UnitNs(r[k].unit) as real
  }

  /** A part in front of a canonical tail worth less than one of its unit,
      and made of smaller units, keeps the whole canonical. */
  lemma CanonicalCons(p: Part, rest: seq<Part>)
    requires Canonical(rest)
    requires forall k :: 0 <= k < |rest| ==> UnitNs(rest[k].unit) < UnitNs(p.unit)
    requires PartsNs(rest) < UnitNs(p.unit) as real
    ensures Canonical([p] + rest)
  {
    var r := [p] + rest;
    assert r[1..] == rest;
    forall k | 1 <= k < |r|
      ensures r[k] == rest[k - 1] && r[k + 1..] == rest[k..]
    {
    }
  }

  /** Every unit the tail of a breakdown uses is smaller than the first. */
  lemma BreakdownTailUnits(ns: nat, units: seq<TimeUnit>)
    requires units != [] && UnitsDescending(units)
    ensures var rest := Breakdown(ns, units[1..]);
      forall k :: 0 <= k < |rest| ==> UnitNs(rest[k].unit) < UnitNs(units[0])
  {
    var rest := Breakdown(ns, units[1..]);
    forall k | 0 <= k < |rest|
      ensures UnitNs(rest[k].unit) < UnitNs(units[0])
    {
      var j :| 0 <= j < |units[1..]| && units[1..][j] == rest[k].unit;
      assert units[j + 1] == rest[k].unit;
    }
  }

  /** The greedy breakdown is canonical. */
  lemma {:induction false} BreakdownCanonical(ns: nat, units: seq<TimeUnit>)
    requires |units| >= 1 && units[|units| - 1] == Ns
    requires UnitsDescending(units)
    ensures Canonical(Breakdown(ns, units))
    decreases |units|
  {
    var u := units[0];
    var rem := ns % UnitNs(u);
    var rest := Breakdown(rem, units[1..]);
    if |units| == 1 {
      assert rest == [];
    } else {
      BreakdownCanonical(rem, units[1..]);
      BreakdownSum(rem, units[1..]);
    }
    DivMod(ns, u);
    assert PartsNs(rest) == rem as real;
    var lead := Leading(ns, u);
    if lead == [] {
      assert Breakdown(ns, units) == rest;
    } else {
      BreakdownTailUnits(rem, units);
      CanonicalCons(lead[0], rest);
      assert lead == [lead[0]];
    }
  }

  /** The exact rendering's parts add up to `ns`, use strictly decreasing
      units, are all nonzero unless `ns` is zero, and are canonical. */
  lemma ExactPartsCanonical(ns: nat)
    ensures var r := ExactParts(ns);
      && |r| >= 1
      && PartsNs(r) == ns as real
      && (ns > 0 ==> forall k :: 0 <= k < |r| ==> r[k].amount.n > 0)
      && Canonical(r)
  {
    var r := ExactParts(ns);
    if ns == 0 {
      assert r == [Part(Grouped(0), Ns)];
      assert r[1..] == [];
      assert PartsNs(r) == 0.0;
    } else {
      assert r == Breakdown(ns, EXACT_UNITS);
      ExactUnitsDescending();
      BreakdownSum(ns, EXACT_UNITS);
      BreakdownCanonical(ns, EXACT_UNITS);
    }
  }

  lemma ExactUnitsDescending()
    ensures |EXACT_UNITS| >= 1 && EXACT_UNITS[|EXACT_UNITS| - 1] == Ns
    ensures UnitsDescending(EXACT_UNITS)
  {
  }

  /** The exact rendering is lossless: it reads back as `ns` nanoseconds. */
  lemma ExactRoundTrip(ns: nat)
    ensures TextToNs(FormatTimeNsExact(ns)) == Ok(ns)
    ensures TextToUs(FormatTimeNsExact(ns)) == Ok(ns / 1000)
    ensures TextToMs(FormatTimeNsExact(ns)) == Ok(ns / 1_000_000)
  {
    var r := ExactParts(ns);
    ExactPartsCanonical(ns);
    ReadBack(r, Ns);
    ReadBack(r, Us);
    ReadBack(r, Ms);
    InUnitsOfNat(ns, Ns);
    InUnitsOfNat(ns, Us);
    InUnitsOfNat(ns, Ms);
  }

  /** One step of the breakdown: the leading unit, then the rest of the
      units on the remainder. */
  lemma BreakdownStep(ns: nat, units: seq<TimeUnit>, r: nat, rest: seq<Part>)
    requires units != [] && r == ns % UnitNs(units[0]) && Breakdown(r, units[1..]) == rest
    ensures Breakdown(ns, units) == Leading(ns, units[0]) + rest
  {
  }

  /** The breakdown from seconds down, as the count of each unit. */
  lemma SubminuteUnfold(r3: nat, r4: nat, r5: nat, r6: nat)
    requires r4 == r3 % UnitNs(Sec) && r5 == r4 % UnitNs(Ms) && r6 == r5 % UnitNs(Us)
    ensures Breakdown(r3, EXACT_UNITS[3..])
      == Leading(r3, Sec) + (Leading(r4, Ms) + (Leading(r5, Us) + Leading(r6, Ns)))
  {
    var u := EXACT_UNITS;
    var b6 := Leading(r6, Ns);
    var b5 := Leading(r5, Us) + b6;
    var b4 := Leading(r4, Ms) + b5;
    assert Breakdown(r6, u[6..]) == b6 by {
      assert u[6..][1..] == [] && u[6..][0] == Ns;
      BreakdownStep(r6, u[6..], 0, []);
      assert b6 + [] == b6;
    }
    assert Breakdown(r5, u[5..]) == b5 by {
      assert u[5..][1..] == u[6..] && u[5..][0] == Us;
      BreakdownStep(r5, u[5..], r6, b6);
    }
    assert Breakdown(r4, u[4..]) == b4 by {
      assert u[4..][1..] == u[5..] && u[4..][0] == Ms;
      BreakdownStep(r4, u[4..], r5, b5);
    }
    assert u[3..][1..] == u[4..] && u[3..][0] == Sec;
    BreakdownStep(r3, u[3..], r4, b4);
  }

  /** The exact form of a nonzero duration: days, hours and minutes, then
      the breakdown of what is left below a minute. */
  lemma ExactPartsUnfold(ns: nat, r1: nat, r2: nat, r3: nat)
    requires ns > 0
    requires r1 == ns % UnitNs(Day) && r2 == r1 % UnitNs(Hour) && r3 == r2 % UnitNs(Minute)
    ensures ExactParts(ns) == Leading(ns, Day) + (Leading(r1, Hour) + (Leading(r2, Minute)
      + Breakdown(r3, EXACT_UNITS[3..])))
  {
    var u := EXACT_UNITS;
    var b3 := Breakdown(r3, u[3..]);
    var b2 := Leading(r2, Minute) + b3;
    var b1 := Leading(r1, Hour) + b2;
    assert Breakdown(r2, u[2..]) == b2 by {
      assert u[2..][1..] == u[3..] && u[2..][0] == Minute;
      BreakdownStep(r2, u[2..], r3, b3);
    }
    assert Breakdown(r1, u[1..]) == b1 by {
      assert u[1..][1..] == u[2..] && u[1..][0] == Hour;
      BreakdownStep(r1, u[1..], r2, b2);
    }
    BreakdownStep(ns, u, r1, b1);
  }

  /** The component for `c` whole units: none when `c` is zero. */
  function Component(c: nat, u: TimeUnit): seq<Part> {
    if c > 0 then [Part(Grouped(c), u)] else []
  }

  /** Splitting off `c` whole units of `u` leaves the remainder `r`. */
  lemma LeadingStep(x: nat, u: TimeUnit, c: nat, r: nat)
    requires x == c * UnitNs(u) + r && r < UnitNs(u)
    ensures Leading(x, u) == Component(c, u) && x % UnitNs(u) == r
  {
    match u
    case Ns =>
    case Us =>
    case Ms =>
    case Sec =>
    case Minute =>
    case Hour =>
    case Day =>
  }

  /** The exact form reads off the mixed-radix digits of a duration: days,
      hours below a day, minutes below an hour, seconds below a minute, and
      thousands below that, each left out when zero. */
  lemma ExactPartsDigits(ns: nat, d: nat, h: nat, m: nat, s: nat, ms: nat, us: nat, n: nat)
    requires ns > 0
    requires h < 24 && m < 60 && s < 60 && ms < 1000 && us < 1000 && n < 1000
    requires ns == d * UnitNs(Day) + h * UnitNs(Hour) + m * UnitNs(Minute) + s * UnitNs(Sec)
      + ms * UnitNs(Ms) + us * UnitNs(Us) + n
    ensures ExactParts(ns) == Component(d, Day) + (Component(h, Hour) + (Component(m, Minute)
      + (Component(s, Sec) + (Component(ms, Ms) + (Component(us, Us) + Component(n, Ns))))))
  {
    var r3 := s * 1_000_000_000 + ms * 1_000_000 + us * 1000 + n;
    var r2 := m * 60_000_000_000 + r3;
    var r1 := h * 3_600_000_000_000 + r2;
    SubminuteDigits(r3, s, ms, us, n);
    AboveMinuteDigits(ns, d, h, m, r1, r2, r3);
  }

  /** Days, hours and minutes, then the breakdown of what is left below a
      minute. */
  lemma AboveMinuteDigits(ns: nat, d: nat, h: nat, m: nat, r1: nat, r2: nat, r3: nat)
    requires ns > 0 && h < 24 && m < 60 && r3 < UnitNs(Minute)
    requires ns == d * UnitNs(Day) + r1 && r1 == h * UnitNs(Hour) + r2 && r2 == m * UnitNs(Minute) + r3
    ensures ExactParts(ns) == Component(d, Day) + (Component(h, Hour) + (Component(m, Minute)
      + Breakdown(r3, EXACT_UNITS[3..])))
  {
    assert Leading(ns, Day) == Component(d, Day) && ns % UnitNs(Day) == r1 by {
      LeadingStep(ns, Day, d, r1);
    }
    assert Leading(r1, Hour) == Component(h, Hour) && r1 % UnitNs(Hour) == r2 by {
      LeadingStep(r1, Hour, h, r2);
    }
    assert Leading(r2, Minute) == Component(m, Minute) && r2 % UnitNs(Minute) == r3 by {
      LeadingStep(r2, Minute, m, r3);
    }
    ExactPartsUnfold(ns, r1, r2, r3);
  }

  /** Below a minute, the breakdown is the count of seconds, milliseconds,
      microseconds and nanoseconds, with the zero counts left out. */
  lemma SubminuteDigits(r3: nat, s: nat, ms: nat, us: nat, n: nat)
    requires s < 60 && ms < 1000 && us < 1000 && n < 1000
    requires r3 == s * UnitNs(Sec) + ms * UnitNs(Ms) + us * UnitNs(Us) + n
    ensures Breakdown(r3, EXACT_UNITS[3..])
      == Component(s, Sec) + (Component(ms, Ms) + (Component(us, Us) + Component(n, Ns)))
  {
    var r4 := ms * UnitNs(Ms) + us * UnitNs(Us) + n;
    var r5 := us * UnitNs(Us) + n;
    assert Leading(r3, Sec) == Component(s, Sec) && r3 % UnitNs(Sec) == r4 by {
      LeadingStep(r3, Sec, s, r4);
    }
    assert Leading(r4, Ms) == Component(ms, Ms) && r4 % UnitNs(Ms) == r5 by {
      LeadingStep(r4, Ms, ms, r5);
    }
    assert Leading(r5, Us) == Component(us, Us) && r5 % UnitNs(Us) == n by {
      LeadingStep(r5, Us, us, n);
    }
    assert Leading(n, Ns) == Component(n, Ns) by {
      LeadingStep(n, Ns, n, 0);
    }
    SubminuteUnfold(r3, r4, r5, n);
  }


  // ==================================================================
  // The approximate rendering

  function Dist(a: nat, b: nat): nat {
    if a >= b then a - b else b - a
  }

  /** The nanoseconds the finest approximate component stands for. */
  function LastNs(x: nat, u: TimeUnit): nat {
    var d := UnitNs(u);
    if x % d == 0 then x else RoundMilli(x, d) * (d / 1000)
  }

  lemma LastPartValue(x: nat, u: TimeUnit)
    requires u == Ns || u == Us || u == Ms || u == Sec
    ensures PartNs(LastPart(x, u)) == LastNs(x, u) as real
    ensures 2000 * Dist(LastNs(x, u), x) <= UnitNs(u)
  {
    var d := UnitNs(u);
    if x % d == 0 {
      assert x == (x / d) * d;
    } else {
      LastMilliValue(x, u, RoundMilli(x, d));
    }
  }

  /** A rounded finest component stands for its thousandths of the unit,
      within half a thousandth of the unit. */
  lemma LastMilliValue(x: nat, u: TimeUnit, q: nat)
    requires u == Us || u == Ms || u == Sec
    requires x % UnitNs(u) != 0 && q == RoundMilli(x, UnitNs(u))
    ensures PartNs(LastPart(x, u)) == (q * (UnitNs(u) / 1000)) as real
    ensures 2000 * Dist(q * (UnitNs(u) / 1000), x) <= UnitNs(u)
  {
    var d := UnitNs(u);
    assert LastPart(x, u) == Part(Milli(q), u);
    assert 2 * d * q <= 2000 * x + d < 2 * d * q + 2 * d;
    match u
    case Us =>
      assert q * 1000 == 1000 * (q * 1);
      assert 2000 * Dist(q * 1, x) <= 1000;
    case Ms =>
      assert q * 1_000_000 == 1000 * (q * 1000);
      assert 2000 * Dist(q * 1000, x) <= 1_000_000;
    case Sec =>
      assert q * 1_000_000_000 == 1000 * (q * 1_000_000);
      assert 2000 * Dist(q * 1_000_000, x) <= 1_000_000_000;
  }


  /** A rendering worth a whole number of nanoseconds reads back as exactly that number. */
  lemma ReadsAsNat(ps: seq<Part>, v: nat)
    requires |ps| >= 1 && PartsNs(ps) == v as real
    ensures TextToNs(Render(ps)) == Ok(v)
  {
    ReadBack(ps, Ns);
    InUnitsOfNat(v, Ns);
  }

  /** An optional whole-count part stands for that many units. */
  lemma PlainPartNs(n: nat, u: TimeUnit)
    ensures PartsNs(if n > 0 then [Part(Plain(n), u)] else []) == (n * UnitNs(u)) as real
  {
    if n > 0 {
      ScaleNat(n, u);
    } else {
      assert n * UnitNs(u) == 0;
    }
  }

  /** The optional trailing seconds part, within half a millisecond. */
  lemma SecondsPartNs(rem: nat) returns (v: nat)
    ensures PartsNs(if rem > 0 then [LastPart(rem, Sec)] else []) == v as real
    ensures 2000 * Dist(v, rem) <= UnitNs(Sec)
  {
    if rem > 0 {
      LastPartValue(rem, Sec);
      v := LastNs(rem, Sec);
    } else {
      v := 0;
    }
  }

  /** From one minute up, hours and minutes are exact and only the seconds round. */
  lemma MinutePartsNs(ns: nat) returns (v: nat)
    requires ns >= UnitNs(Minute)
    ensures PartsNs(ApproxParts(ns)) == v as real
    ensures 2000 * Dist(v, ns) <= ns
  {
    var h := ns / UnitNs(Hour);
    var m := ns % UnitNs(Hour) / UnitNs(Minute);
    var rem := ns % UnitNs(Hour) % UnitNs(Minute);
    var a := if h > 0 then [Part(Plain(h), Hour)] else [];
    var b := if m > 0 then [Part(Plain(m), Minute)] else [];
    var c := if rem > 0 then [LastPart(rem, Sec)] else [];
    var hn, mn := h * UnitNs(Hour), m * UnitNs(Minute);
    var last := SecondsPartNs(rem);
    assert PartsNs(ApproxParts(ns)) == hn as real + mn as real + last as real by {
      assert ApproxParts(ns) == a + b + c;
      PartsNsAppend(a + b, c);
      PartsNsAppend(a, b);
      PlainPartNs(h, Hour);
      PlainPartNs(m, Minute);
    }
    v := hn + mn + last;
    assert v as real == hn as real + mn as real + last as real;
    assert ns == hn + mn + rem by {
      HourMinuteSplit(ns, h, m, rem);
    }
    MinuteDistance(ns, hn + mn, rem, last, v);
  }

  lemma HourMinuteSplit(ns: nat, h: nat, m: nat, rem: nat)
    requires h == ns / UnitNs(Hour) && m == ns % UnitNs(Hour) / UnitNs(Minute)
    requires rem == ns % UnitNs(Hour) % UnitNs(Minute)
    ensures ns == h * UnitNs(Hour) + m * UnitNs(Minute) + rem
  {
  }

  lemma MinuteDistance(ns: nat, whole: nat, rem: nat, last: nat, v: nat)
    requires ns >= UnitNs(Minute) && ns == whole + rem && v == whole + last
    requires 2000 * Dist(last, rem) <= UnitNs(Sec)
    ensures 2000 * Dist(v, ns) <= ns
  {
    assert Dist(v, ns) == Dist(last, rem);
  }

  /** Below a minute, one part in the largest unit that fits. */
  lemma SinglePartNs(ns: nat, u: TimeUnit) returns (v: nat)
    requires u == Us || u == Ms || u == Sec
    requires ns >= UnitNs(u)
    ensures PartsNs([LastPart(ns, u)]) == v as real
    ensures 2000 * Dist(v, ns) <= ns
  {
    LastPartValue(ns, u);
    v := LastNs(ns, u);
  }

  /** Pairs are summed in whatever order they come: seconds before
      minutes read as the same total. */
  lemma PairsInAnyOrder()
    ensures SumPairs(["2", "s", "1", "m"]) == Ok(62_000_000_000.0)
  {
    assert NatToDigits(1) == "1" && NatToDigits(2) == "2";
    DigitsRead(1);
    DigitsRead(2);
    assert NumberPrefix("1") == 1 && NumberPrefix("2") == 1;
    SumPairsStep("1", "m", [], IntNr(1), Minute, 0.0, 60_000_000_000.0);
    assert ["2", "s", "1", "m"] == ["2", "s"] + ["1", "m"];
    assert ["1", "m"] == ["1", "m"] + [];
    SumPairsStep("2", "s", ["1", "m"], IntNr(2), Sec, 60_000_000_000.0, 62_000_000_000.0);
  }

  /** From one minute up, a zero count between nonzero ones is left out:
      3605 s is one hour and five seconds, with no minute component. */
  lemma ZeroMinuteLeftOut()
    ensures ApproxParts(3_605_000_000_000) == [Part(Plain(1), Hour), Part(Plain(5), Sec)]
  {
    assert 3_605_000_000_000 % UnitNs(Hour) == 5_000_000_000;
  }

  /** From one minute up, a remainder below one second still shows as a
      seconds fraction: 60.005 s is one minute and 0.005 s. */
  lemma SubsecondAfterMinutes()
    ensures ApproxParts(60_005_000_000) == [Part(Plain(1), Minute), Part(Milli(5), Sec)]
  {
    assert 60_005_000_000 % UnitNs(Hour) % UnitNs(Minute) == 5_000_000;
    assert RoundMilli(5_000_000, UnitNs(Sec)) == 5;
  }

  /** The approximate rendering reads back within 0.05% of `ns`. */
  lemma ApproxReadBack(ns: nat)
    ensures TextToNs(FormatTimeNs(ns)).Ok?
    ensures 2000 * Dist(TextToNs(FormatTimeNs(ns)).value, ns) <= ns
  {
    var r := ApproxParts(ns);
    var v: nat;
    if ns >= UnitNs(Minute) {
      v := MinutePartsNs(ns);
    } else if ns >= UnitNs(Sec) {
      v := SinglePartNs(ns, Sec);
    } else if ns >= UnitNs(Ms) {
      v := SinglePartNs(ns, Ms);
    } else if ns >= UnitNs(Us) {
      v := SinglePartNs(ns, Us);
    } else {
      v := ns;
    }
    ReadsAsNat(r, v);
  }

  lemma {:induction false} NoDayTokens(ps: seq<Part>)
    requires forall k :: 0 <= k < |ps| ==> ps[k].unit != Day
    ensures "d" !in Tokens(ps)
  {
    if ps != [] {
      var q, un := QuantityText(ps[0].amount), UnitName(ps[0].unit);
      var more := Tokens(ps[1..]);
      assert q != "d" by {
        QuantityRead(ps[0].amount, ps[0].unit);
        assert IsNumberChar(q[0]);
      }
      assert un != "d" by {
        assert ps[0].unit != Day;
      }
      assert "d" !in more by {
        NoDayTokens(ps[1..]);
      }
      TokensCons(ps);
      assert Tokens(ps) == [q, un] + more;
    }
  }

  /** The approximate rendering never shows a day unit: days fold into hours. */
  lemma ApproxHasNoDays(ns: nat)
    ensures "d" !in Fields(FormatTimeNs(ns))
  {
    var r := ApproxParts(ns);
    TokensAreWords(r);
    FieldsOfJoin(Tokens(r));
    NoDayTokens(r);
  }
}
