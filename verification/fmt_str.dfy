/** The unit-aware value parser and formatter every scheme field goes
    through: grouped numbers, byte sizes with binary suffixes, durations made
    of several (number, unit) pairs, percentages, and the `min`/`max`
    sentinels.  Decimal values are exact (`real`), never binary floats. */
module FmtStr {
  import opened Wrappers
  import opened Text

  /** The largest unsigned 64-bit value: what `max` stands for, and where
      byte sizes clamp. */
  const ULONG_MAX: nat := 0xFFFF_FFFF_FFFF_FFFF

  /** Why a value did not parse; each carries the offending text. */
  datatype FmtError =
    | MalformedNumber(text: string)
    | InvalidInt(text: string)
    | UnknownByteUnit(unit: string)
    | UnknownTimeUnit(unit: string)
    | NumberWithoutUnit(text: string)
    | EmptyDuration

  // ==================================================================
  // Grouped numbers

  predicate NotComma(c: char) {
    c != ','
  }

  /** `s` with every ',' removed, wherever it stands. */
  function StripCommas(s: string): string {
    Filter(NotComma, s)
  }

  /** Inserts ',' in front of every complete group of three digits,
      counting from the right. */
  function Group3(d: string): string
    decreases |d|
  {
    if |d| <= 3 then d else Group3(d[..|d| - 3]) + "," + d[|d| - 3..]
  }

  /** Dropping the commas of a grouped number gives its digits back. */
  lemma {:induction false} Group3Digits(d: string)
    requires AllDigits(d)
    ensures StripCommas(Group3(d)) == d
    decreases |d|
  {
    if |d| <= 3 {
      FilterKeepsAll(NotComma, d);
    } else {
      var head := d[..|d| - 3];
      var tail := d[|d| - 3..];
      Group3Digits(head);
      CommaGroupDigits(Group3(head), head, tail);
      assert d == head + tail;
    }
  }

  lemma CommaGroupDigits(g: string, head: string, tail: string)
    requires StripCommas(g) == head && AllDigits(tail)
    ensures StripCommas(g + "," + tail) == head + tail
  {
    FilterAppend(NotComma, g + ",", tail);
    FilterAppend(NotComma, g, ",");
    assert StripCommas(",") == [];
    FilterKeepsAll(NotComma, tail);
  }

  /** A comma stands exactly where a multiple of four characters remains to
      its right, and every other character is a digit. */
  predicate CommasPlaced(r: string) {
    forall i :: 0 <= i < |r| ==> (r[i] == ',' <==> (|r| - i) % 4 == 0) && (r[i] == ',' || IsDigit(r[i]))
  }

  /** Group3 places commas only between digits: none leads the result. */
  lemma {:induction false} Group3Commas(d: string)
    requires AllDigits(d)
    ensures CommasPlaced(Group3(d))
    ensures |d| >= 1 ==> |Group3(d)| >= 1 && IsDigit(Group3(d)[0])
    decreases |d|
  {
    var r := Group3(d);
    if |d| > 3 {
      var head := d[..|d| - 3];
      var tail := d[|d| - 3..];
      Group3Commas(head);
      var g := Group3(head);
      assert CommasPlaced(g);
      assert r == g + "," + tail;
      assert r[0] == g[0];
      forall i | 0 <= i < |r|
        ensures (r[i] == ',' <==> (|r| - i) % 4 == 0) && (r[i] == ',' || IsDigit(r[i]))
      {
        if i < |g| {
          assert r[i] == g[i];
          assert |r| - i == (|g| - i) + 4;
        } else if i == |g| {
          assert r[i] == ',' && |r| - i == 4;
        } else {
          assert r[i] == tail[i - |g| - 1];
          assert IsDigit(tail[i - |g| - 1]);
          assert 1 <= |r| - i <= 3;
        }
      }
    }
  }

  /** `format_nr(n, False)`: `n` in decimal with ',' between groups of
      three digits, e.g. 1234567 renders as "1,234,567". */
  function FormatNr(n: nat): (r: string)
    ensures StripCommas(r) == NatToDigits(n)
    ensures CommasPlaced(r)
    ensures |r| > 0 && IsDigit(r[0])
  {
    Group3Digits(NatToDigits(n));
    Group3Commas(NatToDigits(n));
    Group3(NatToDigits(n))
  }

  type NonNegReal = x: real | x >= 0.0

  /** A parsed number: a whole number when the text had no '.', else a
      decimal fraction. Only unsigned plain decimals are read: no sign, no
      exponent, no `inf` or `nan`, no '_' between digits. */
  datatype Number = IntNr(i: nat) | FloatNr(f: NonNegReal)

  function NumberValue(x: Number): (v: real)
    ensures v >= 0.0
  {
    match x
    case IntNr(i) => i as real
    case FloatNr(f) => f
  }

  /** The digits `b` read as the fraction `0.b`. */
  function Fraction(b: string): (r: real)
    requires AllDigits(b)
    ensures 0.0 <= r < 1.0
  {
    if b == [] then 0.0 else (DigitValue(b[0]) as real + Fraction(b[1..])) / 10.0
  }

  /** The value of the decimal fraction `a.b` for digit strings `a` and `b`. */
  function DecimalValue(a: string, b: string): (r: NonNegReal)
    requires AllDigits(a) && AllDigits(b)
    ensures DigitsValue(a) as real <= r < DigitsValue(a) as real + 1.0
  {
    DigitsValue(a) as real + Fraction(b)
  }

  /** Reads `digits '.' digits`, either side possibly empty but not both. */
  function ParseDecimal(t: string): (r: Result<Number, FmtError>)
    requires '.' in t
    ensures r.Ok? ==> r.value.FloatNr?
  {
    var i := IndexOf(t, '.');
    var a := t[..i];
    var b := t[i + 1..];
    if AllDigits(a) && AllDigits(b) && |a| + |b| > 0 then
      Ok(FloatNr(DecimalValue(a, b)))
    else
      Err(MalformedNumber(t))
  }

  /** `text_to_nr`: drops every ',' and reads what is left, ignoring
      surrounding whitespace, as an integer, or as a decimal fraction when a
      '.' is present. */
  function TextToNr(s: string): (r: Result<Number, FmtError>)
    ensures r.Ok? ==> (r.value.IntNr? <==> '.' !in s)
  {
    var t := Strip(StripCommas(s));
    if '.' in t then
      StripWithin(StripCommas(s));
      ParseDecimal(t)
    else if t != [] && AllDigits(t) then
      assert '.' !in s by {
        if '.' in s {
          var j :| 0 <= j < |s| && s[j] == '.';
          FilterAppend(NotComma, s[..j], s[j..]);
          assert s == s[..j] + s[j..];
          assert s[j..] == [s[j]] + s[j + 1..];
          FilterAppend(NotComma, [s[j]], s[j + 1..]);
          var c := StripCommas(s);
          assert c[|StripCommas(s[..j])|] == '.';
          StripKeeps(c, |StripCommas(s[..j])|);
        }
      }
      Ok(IntNr(DigitsValue(t)))
    else
      Err(MalformedNumber(s))
  }

  /** Text whose comma-free, stripped form is all digits reads as an integer. */
  lemma ReadsAsInt(s: string)
    requires var t := Strip(StripCommas(s)); t != [] && AllDigits(t)
    ensures TextToNr(s) == Ok(IntNr(DigitsValue(Strip(StripCommas(s)))))
  {
  }

  /** Text whose comma-free, stripped form holds a '.' reads as a decimal. */
  lemma ReadsAsDecimal(s: string)
    requires '.' in Strip(StripCommas(s))
    ensures TextToNr(s) == ParseDecimal(Strip(StripCommas(s)))
  {
  }

  /** Python's `int()` on one field: an optional sign and decimal digits,
      surrounding whitespace ignored. */
  function TextToInt(s: string): Result<int, FmtError> {
    var t := Strip(s);
    if |t| > 1 && (t[0] == '-' || t[0] == '+') && AllDigits(t[1..]) then
      Ok(if t[0] == '-' then -(DigitsValue(t[1..]) as int) else DigitsValue(t[1..]))
    else if |t| > 0 && AllDigits(t) then
      Ok(DigitsValue(t))
    else
      Err(InvalidInt(s))
  }

  /** Python's `str(i)` for any integer. */
  function IntToText(i: int): string {
    if i < 0 then "-" + NatToDigits(-i) else NatToDigits(i)
  }

  // ==================================================================
  // Byte sizes

  function Pow1024(k: nat): (r: nat)
    ensures r >= 1
  {
    if k == 0 then 1 else 1024 * Pow1024(k - 1)
  }

  /** The power of 1024 a byte suffix denotes; a letter and its IEC spelling
      ("M" and "MiB") are synonyms and there is no 1000-based family. */
  function ByteUnitExponent(u: string): (r: Result<nat, FmtError>)
    ensures r.Ok? ==> r.value <= 6
    ensures r.Ok? ==> u == "B" || (|u| >= 1 && u[0] in "KMGTPE")
  {
    if u == "B" then Ok(0)
    else if u == "K" || u == "KiB" then Ok(1)
    else if u == "M" || u == "MiB" then Ok(2)
    else if u == "G" || u == "GiB" then Ok(3)
    else if u == "T" || u == "TiB" then Ok(4)
    else if u == "P" || u == "PiB" then Ok(5)
    else if u == "E" || u == "EiB" then Ok(6)
    else Err(UnknownByteUnit(u))
  }

  /** Length of the run of letters at the end of `s`. */
  function TrailingLetters(s: string): (n: nat)
    ensures n <= |s|
    ensures forall i :: |s| - n <= i < |s| ==> IsLetter(s[i])
    ensures n == |s| || !IsLetter(s[|s| - n - 1])
  {
    if s != [] && IsLetter(s[|s| - 1]) then 1 + TrailingLetters(s[..|s| - 1]) else 0
  }

  function FloorNat(x: real): (r: nat)
    requires x >= 0.0
    ensures r as real <= x < r as real + 1.0
  {
    x.Floor
  }

  /** `x * k` truncated to an integer. */
  function ScaledFloor(x: Number, k: nat): nat {
    FloorNat(NumberValue(x) * k as real)
  }

  function Clamp(x: nat): nat {
    if x > ULONG_MAX then ULONG_MAX else x
  }

  /** `text_to_bytes`: `min`, `max`, or a number with an optional byte
      suffix, possibly after whitespace; the product is truncated and then
      clamped to ULONG_MAX instead of wrapping. */
  function TextToBytes(s: string): (r: Result<nat, FmtError>)
    ensures r.Ok? ==> r.value <= ULONG_MAX
  {
    if s == "min" then Ok(0)
    else if s == "max" then Ok(ULONG_MAX)
    else
      var n := TrailingLetters(s);
      ScaledBytes(s[..|s| - n], s[|s| - n..])
  }

  /** A number followed by a possibly empty byte unit, in bytes. */
  function ScaledBytes(number: string, unit: string): (r: Result<nat, FmtError>)
    ensures r.Ok? ==> r.value <= ULONG_MAX
  {
    var e :- if unit == [] then Ok(0) else ByteUnitExponent(unit);
    var x :- TextToNr(number);
    Ok(Clamp(ScaledFloor(x, Pow1024(e))))
  }

  // ==================================================================
  // Percentages

  /** `text_to_percent`: a number followed by '%', optionally after
      whitespace, with ',' ignored anywhere.  Text without the '%' marker is
      read by `other`: which such text is accepted, and as what, is left open
      by this model. */
  function TextToPercent(s: string, other: string -> Result<real, FmtError>): (r: Result<real, FmtError>)
    ensures |s| > 0 && s[|s| - 1] == '%' ==> (r.Ok? ==> r.value >= 0.0)
    ensures (|s| == 0 || s[|s| - 1] != '%') ==> r == other(s)
  {
    if |s| > 0 && s[|s| - 1] == '%' then
      var x :- TextToNr(s[..|s| - 1]);
      Ok(NumberValue(x))
    else
      other(s)
  }

  // ==================================================================
  // Durations

  datatype TimeUnit = Ns | Us | Ms | Sec | Minute | Hour | Day

  /** Length of one unit in nanoseconds. */
  function UnitNs(u: TimeUnit): (r: nat)
    ensures r >= 1
  {
    match u
    case Ns => 1
    case Us => 1_000
    case Ms => 1_000_000
    case Sec => 1_000_000_000
    case Minute => 60_000_000_000
    case Hour => 3_600_000_000_000
    case Day => 86_400_000_000_000
  }

  function UnitName(u: TimeUnit): string {
    match u
    case Ns => "ns"
    case Us => "us"
    case Ms => "ms"
    case Sec => "s"
    case Minute => "m"
    case Hour => "h"
    case Day => "d"
  }

  /** The unit a unit token names: the inverse of UnitName. */
  function UnitOfName(s: string): (r: Result<TimeUnit, FmtError>)
    ensures r.Ok? ==> UnitName(r.value) == s
  {
    if s == "ns" then Ok(Ns)
    else if s == "us" then Ok(Us)
    else if s == "ms" then Ok(Ms)
    else if s == "s" then Ok(Sec)
    else if s == "m" then Ok(Minute)
    else if s == "h" then Ok(Hour)
    else if s == "d" then Ok(Day)
    else Err(UnknownTimeUnit(s))
  }

  predicate IsNumberChar(c: char) {
    IsDigit(c) || c == ',' || c == '.'
  }

  /** Length of the run of number characters at the start of `t`. */
  function NumberPrefix(t: string): (n: nat)
    ensures n <= |t|
    ensures forall i :: 0 <= i < n ==> IsNumberChar(t[i])
    ensures n == |t| || !IsNumberChar(t[n])
  {
    if t != [] && IsNumberChar(t[0]) then 1 + NumberPrefix(t[1..]) else 0
  }

  /** `v` units of `u`, in nanoseconds. */
  function Scale(v: real, u: TimeUnit): real {
    match u
    case Ns => v
    case Us => v * 1_000.0
    case Ms => v * 1_000_000.0
    case Sec => v * 1_000_000_000.0
    case Minute => v * 60_000_000_000.0
    case Hour => v * 3_600_000_000_000.0
    case Day => v * 86_400_000_000_000.0
  }

  /** `ns` nanoseconds in units of `u`. */
  function PerUnit(ns: real, u: TimeUnit): real {
    match u
    case Ns => ns
    case Us => ns / 1_000.0
    case Ms => ns / 1_000_000.0
    case Sec => ns / 1_000_000_000.0
    case Minute => ns / 60_000_000_000.0
    case Hour => ns / 3_600_000_000_000.0
    case Day => ns / 86_400_000_000_000.0
  }

  /** `x` units of `u`, in nanoseconds. */
  function InNs(x: Number, u: TimeUnit): (r: real)
    ensures r >= 0.0
  {
    Scale(NumberValue(x), u)
  }

  /** The total, in nanoseconds, of the (number, unit) pairs of a duration;
      a unit either abuts its number ("1234us") or is the next field ("1 m"). */
  function SumPairs(tokens: seq<string>): (r: Result<real, FmtError>)
    ensures r.Ok? ==> r.value >= 0.0
    decreases |tokens|
  {
    if tokens == [] then Ok(0.0)
    else
      var t := tokens[0];
      var k := NumberPrefix(t);
      if k < |t| then
        var x :- TextToNr(t[..k]);
        var u :- UnitOfName(t[k..]);
        var rest :- SumPairs(tokens[1..]);
        Ok(InNs(x, u) + rest)
      else if |tokens| >= 2 then
        var x :- TextToNr(t);
        var u :- UnitOfName(tokens[1]);
        var rest :- SumPairs(tokens[2..]);
        Ok(InNs(x, u) + rest)
      else
        Err(NumberWithoutUnit(t))
  }

  /** A duration written as one number and no unit. */
  predicate IsBareNumber(tokens: seq<string>) {
    |tokens| == 1 && TextToNr(tokens[0]).Ok?
  }

  /** `n` is the whole number of `target` units in `total` nanoseconds. */
  predicate Truncates(n: nat, total: real, target: TimeUnit) {
    n as real <= PerUnit(total, target) < (n + 1) as real
  }

  /** A nanosecond total, truncated to whole `target` units. */
  function InUnits(total: real, target: TimeUnit): (n: nat)
    requires total >= 0.0
    ensures Truncates(n, total, target)
  {
    FloorNat(PerUnit(total, target))
  }

  /** A duration in `target` units: `min`, `max`, a bare number already in
      `target` units, or a sum of (number, unit) pairs converted from
      nanoseconds and truncated. */
  function TextToTime(s: string, target: TimeUnit): (r: Result<nat, FmtError>)
    ensures r.Ok? && s != "min" && s != "max" && !IsBareNumber(Fields(s)) ==>
      SumPairs(Fields(s)).Ok? && Truncates(r.value, SumPairs(Fields(s)).value, target)
  {
    if s == "min" then Ok(0)
    else if s == "max" then Ok(ULONG_MAX)
    else
      var tokens := Fields(s);
      if tokens == [] then
        Err(EmptyDuration)
      else if IsBareNumber(tokens) then
        Ok(FloorNat(NumberValue(TextToNr(tokens[0]).value)))
      else
        var ns :- SumPairs(tokens);
        Ok(InUnits(ns, target))
  }

  /** `text_to_ns`. */
  function TextToNs(s: string): Result<nat, FmtError> {
    TextToTime(s, Ns)
  }

  /** `text_to_us`. */
  function TextToUs(s: string): Result<nat, FmtError> {
    TextToTime(s, Us)
  }

  /** `text_to_ms`. */
  function TextToMs(s: string): Result<nat, FmtError> {
    TextToTime(s, Ms)
  }

  // ==================================================================
  // Rendering durations

  /** How one component of a rendered duration shows its amount: grouped
      digits, plain digits, or a count of thousandths shown with three
      decimals. */
  datatype Quantity = Grouped(n: nat) | Plain(n: nat) | Milli(q: nat)

  datatype Part = Part(amount: Quantity, unit: TimeUnit)

  function QuantityText(x: Quantity): string {
    match x
    case Grouped(n) => FormatNr(n)
    case Plain(n) => NatToDigits(n)
    case Milli(q) => NatToDigits(q / 1000) + "." + Pad3(q % 1000)
  }

  /** The number of units a rendered amount stands for. */
  function AmountValue(x: Quantity): (r: real)
    ensures r >= 0.0
  {
    match x
    case Grouped(n) => n as real
    case Plain(n) => n as real
    case Milli(q) => q as real / 1000.0
  }

  /** The nanoseconds one component stands for. */
  function PartNs(p: Part): (r: real)
    ensures r >= 0.0
  {
    Scale(AmountValue(p.amount), p.unit)
  }

  function PartsNs(ps: seq<Part>): (r: real)
    ensures r >= 0.0
  {
    if ps == [] then 0.0 else PartNs(ps[0]) + PartsNs(ps[1..])
  }

  /** The fields of a rendered duration: each amount, then its unit. */
  function Tokens(ps: seq<Part>): seq<string> {
    if ps == [] then [] else [QuantityText(ps[0].amount), UnitName(ps[0].unit)] + Tokens(ps[1..])
  }

  function Render(ps: seq<Part>): string {
    JoinWith(Tokens(ps), " ")
  }

  /** Units strictly decrease from left to right. */
  predicate PartsDescending(ps: seq<Part>) {
    forall i, j :: 0 <= i < j < |ps| ==> UnitNs(ps[j].unit) < UnitNs(ps[i].unit)
  }

  predicate UnitsDescending(us: seq<TimeUnit>) {
    forall i, j :: 0 <= i < j < |us| ==> UnitNs(us[j]) < UnitNs(us[i])
  }

  /** Every unit from days down to nanoseconds, largest first. */
  const EXACT_UNITS: seq<TimeUnit> := [Day, Hour, Minute, Sec, Ms, Us, Ns]

  /** The whole units of `u` in `ns`, as one part, or nothing when there are none. */
  function Leading(ns: nat, u: TimeUnit): (r: seq<Part>)
    ensures |r| <= 1
    ensures forall k :: 0 <= k < |r| ==> r[k].amount.Grouped? && r[k].amount.n > 0 && r[k].unit == u
  {
    var c := ns / UnitNs(u);
    if c > 0 then [Part(Grouped(c), u)] else []
  }

  /** The greedy breakdown of `ns` over `units`, largest unit first, keeping
      only the units with a nonzero count. */
  function Breakdown(ns: nat, units: seq<TimeUnit>): (r: seq<Part>)
    ensures forall k :: 0 <= k < |r| ==> r[k].amount.Grouped? && r[k].amount.n > 0
    ensures forall k :: 0 <= k < |r| ==> r[k].unit in units
    decreases |units|
  {
    if units == [] then []
    else Leading(ns, units[0]) + Breakdown(ns % UnitNs(units[0]), units[1..])
  }

  /** The components of `format_time_ns_exact`: `0 ns` for zero, otherwise
      the nonzero counts of d, h, m, s, ms, us and ns. */
  function ExactParts(ns: nat): seq<Part> {
    if ns == 0 then [Part(Grouped(0), Ns)] else Breakdown(ns, EXACT_UNITS)
  }

  /** `format_time_ns_exact(ns, False)`, e.g. "2 m 3 s 456 ms 789 us 123 ns". */
  function FormatTimeNsExact(ns: nat): string {
    Render(ExactParts(ns))
  }

  /** `x / d` in thousandths, rounded half up. */
  function RoundMilli(x: nat, d: nat): nat
    requires d > 0
  {
    (2000 * x + d) / (2 * d)
  }

  /** The finest component of the approximate form: a whole count when `u`
      divides `x`, else the quotient with three rounded decimals. */
  function LastPart(x: nat, u: TimeUnit): Part {
    var d := UnitNs(u);
    if x % d == 0 then Part(Plain(x / d), u) else Part(Milli(RoundMilli(x, d)), u)
  }

  /** The components of `format_time_ns`: from one minute up, whole hours and
      minutes followed by the seconds with their fraction; below a minute,
      the largest unit that fits, with its fraction.  Days are never used. */
  function ApproxParts(ns: nat): (r: seq<Part>)
    ensures |r| >= 1
    ensures forall k :: 0 <= k < |r| ==> r[k].unit != Day
    ensures forall k :: 0 <= k < |r| - 1 ==> r[k].amount.Plain?
    ensures !r[|r| - 1].amount.Grouped?
    ensures PartsDescending(r)
  {
    if ns >= UnitNs(Minute) then
      var h := ns / UnitNs(Hour);
      var m := ns % UnitNs(Hour) / UnitNs(Minute);
      var rem := ns % UnitNs(Hour) % UnitNs(Minute);
      assert h > 0 || m > 0;
      (if h > 0 then [Part(Plain(h), Hour)] else [])
        + (if m > 0 then [Part(Plain(m), Minute)] else [])
        + (if rem > 0 then [LastPart(rem, Sec)] else [])
    else if ns >= UnitNs(Sec) then [LastPart(ns, Sec)]
    else if ns >= UnitNs(Ms) then [LastPart(ns, Ms)]
    else if ns >= UnitNs(Us) then [LastPart(ns, Us)]
    else [Part(Plain(ns), Ns)]
  }

  /** `format_time_ns(ns, False)`, e.g. "2 m 3.457 s". */
  function FormatTimeNs(ns: nat): string {
    Render(ApproxParts(ns))
  }
}
