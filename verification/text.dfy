/** The parts of Python's `str` that the scheme decoders lean on: `split()`,
    `split('\n')`, `strip()`, `lower()`, `startswith()`, `'%d' % n` and the
    digit reading inside `int()`.  Whitespace is the ASCII set (space, tab,
    line feed, vertical tab, form feed, carriage return). */
module Text {

  predicate IsSpace(c: char) {
    c == ' ' || '\t' <= c <= '\r'
  }

  predicate IsDigit(c: char) {
    '0' <= c <= '9'
  }

  predicate IsLetter(c: char) {
    'a' <= c <= 'z' || 'A' <= c <= 'Z'
  }

  predicate IsUpper(c: char) {
    'A' <= c <= 'Z'
  }

  predicate AllDigits(s: string) {
    forall i :: 0 <= i < |s| ==> IsDigit(s[i])
  }

  /** One field of a whitespace split: nonempty, with no whitespace in it. */
  predicate IsWord(w: string) {
    |w| > 0 && forall i :: 0 <= i < |w| ==> !IsSpace(w[i])
  }

  predicate NotSpace(c: char) {
    !IsSpace(c)
  }

  // ------------------------------------------------------------------
  // Filtering

  /** The elements of `s` that satisfy `p`, in their original order. */
  function Filter<T>(p: T -> bool, s: seq<T>): (r: seq<T>)
    ensures |r| <= |s|
    ensures forall i :: 0 <= i < |r| ==> p(r[i])
    ensures forall x :: x in r ==> x in s
  {
    if s == [] then []
    else if p(s[0]) then [s[0]] + Filter(p, s[1..])
    else Filter(p, s[1..])
  }

  /** Filtering distributes over concatenation: together with the one-element
      case this pins down which elements survive and in which order. */
  lemma {:induction false} FilterAppend<T>(p: T -> bool, a: seq<T>, b: seq<T>)
    ensures Filter(p, a + b) == Filter(p, a) + Filter(p, b)
  {
    if a == [] {
      assert a + b == b;
    } else {
      assert (a + b)[1..] == a[1..] + b;
      FilterAppend(p, a[1..], b);
    }
  }

  lemma {:induction false} FilterKeepsAll<T>(p: T -> bool, s: seq<T>)
    requires forall i :: 0 <= i < |s| ==> p(s[i])
    ensures Filter(p, s) == s
  {
    if s != [] {
      FilterKeepsAll(p, s[1..]);
    }
  }

  lemma {:induction false} FilterDropsAll<T>(p: T -> bool, s: seq<T>)
    requires forall i :: 0 <= i < |s| ==> !p(s[i])
    ensures Filter(p, s) == []
  {
    if s != [] {
      FilterDropsAll(p, s[1..]);
    }
  }

  /** Every character of `s` that is not whitespace, in order. */
  function NonSpace(s: string): string {
    Filter(NotSpace, s)
  }

  // ------------------------------------------------------------------
  // Joining

  /** Concatenation of all the strings of `ws`. */
  function Concat(ws: seq<string>): string {
    if ws == [] then "" else ws[0] + Concat(ws[1..])
  }

  /** Python's `sep.join(ws)`. */
  function JoinWith(ws: seq<string>, sep: string): string {
    if |ws| == 0 then ""
    else if |ws| == 1 then ws[0]
    else ws[0] + sep + JoinWith(ws[1..], sep)
  }

  // ------------------------------------------------------------------
  // Trimming

  /** `s` without its leading whitespace. */
  function TrimStart(s: string): string {
    if s != [] && IsSpace(s[0]) then TrimStart(s[1..]) else s
  }

  /** What TrimStart keeps is a suffix that starts with a non-space, and
      what it drops is whitespace. */
  lemma {:induction false} TrimStartSpec(s: string)
    ensures var r := TrimStart(s);
      && |r| <= |s| && r == s[|s| - |r|..]
      && (forall i :: 0 <= i < |s| - |r| ==> IsSpace(s[i]))
      && (r == [] || !IsSpace(r[0]))
  {
    if s != [] && IsSpace(s[0]) {
      var t := s[1..];
      TrimStartSpec(t);
      var r := TrimStart(t);
      assert TrimStart(s) == r;
      assert t[|t| - |r|..] == s[|s| - |r|..];
      forall i | 0 <= i < |s| - |r|
        ensures IsSpace(s[i])
      {
        if i > 0 {
          assert s[i] == t[i - 1];
        }
      }
    }
  }

  lemma TrimStartKeeps(s: string)
    requires s == [] || !IsSpace(s[0])
    ensures TrimStart(s) == s
  {
  }

  /** `s` without its trailing whitespace. */
  function TrimEnd(s: string): string {
    if s != [] && IsSpace(s[|s| - 1]) then TrimEnd(s[..|s| - 1]) else s
  }

  /** What TrimEnd keeps is a prefix that ends in a non-space, and what it
      drops is whitespace. */
  lemma {:induction false} TrimEndSpec(s: string)
    ensures var r := TrimEnd(s);
      && |r| <= |s| && r == s[..|r|]
      && (forall i :: |r| <= i < |s| ==> IsSpace(s[i]))
      && (r == [] || !IsSpace(r[|r| - 1]))
  {
    if s != [] && IsSpace(s[|s| - 1]) {
      TrimEndSpec(s[..|s| - 1]);
    }
  }

  /** Python's `str.strip()` with no argument. */
  function Strip(s: string): string {
    TrimEnd(TrimStart(s))
  }

  /** A string with no whitespace at its ends is its own strip. */
  lemma StripOfTrimmed(s: string)
    requires s == [] || (!IsSpace(s[0]) && !IsSpace(s[|s| - 1]))
    ensures Strip(s) == s
  {
  }

  /** Stripping twice is stripping once. */
  lemma StripIdempotent(s: string)
    ensures Strip(Strip(s)) == Strip(s)
  {
    var t := TrimStart(s);
    TrimStartSpec(s);
    TrimEndSpec(t);
    var u := Strip(s);
    if u != [] {
      assert u[0] == t[0];
    }
    StripOfTrimmed(u);
  }

  /** Stripping only removes characters. */
  lemma StripWithin(s: string)
    ensures forall c :: c in Strip(s) ==> c in s
  {
    var t := TrimStart(s);
    TrimStartSpec(s);
    TrimEndSpec(t);
    forall c | c in Strip(s)
      ensures c in s
    {
      var u := Strip(s);
      var j :| 0 <= j < |u| && u[j] == c;
      assert t[j] == c;
      assert s[|s| - |t| + j] == c;
    }
  }

  /** Stripping keeps every character that is not whitespace. */
  lemma StripKeeps(s: string, i: nat)
    requires i < |s| && !IsSpace(s[i])
    ensures s[i] in Strip(s)
  {
    var t := TrimStart(s);
    TrimStartSpec(s);
    var j := i - (|s| - |t|);
    assert t[j] == s[i];
    var u := TrimEnd(t);
    TrimEndSpec(t);
    assert u[j] == t[j];
  }

  /** Once a non-space character has been reached, whatever follows is kept. */
  lemma {:induction false} TrimStartAppend(y: string, w: string)
    requires TrimStart(y) != []
    ensures TrimStart(y + w) == TrimStart(y) + w
    decreases |y|
  {
    if IsSpace(y[0]) {
      assert (y + w)[1..] == y[1..] + w;
      TrimStartAppend(y[1..], w);
    }
  }

  /** Leading whitespace is skipped whatever follows it. */
  lemma {:induction false} TrimStartSkip(y: string, w: string)
    requires TrimStart(y) == []
    ensures TrimStart(y + w) == TrimStart(w)
    decreases |y|
  {
    if y == [] {
      assert y + w == w;
    } else {
      assert (y + w)[1..] == y[1..] + w;
      TrimStartSkip(y[1..], w);
    }
  }

  /** A trailing space never changes what `strip()` returns. */
  lemma StripTrailingSpace(y: string)
    ensures Strip(y + " ") == Strip(y)
  {
    if TrimStart(y) != [] {
      TrimStartAppend(y, " ");
      var z := TrimStart(y);
      assert (z + " ")[..|z|] == z;
    } else {
      TrimStartSkip(y, " ");
      assert TrimStart(" ") == TrimStart(" "[1..]);
    }
  }

  /** Python's `str.startswith(prefix)`. */
  predicate StartsWith(s: string, prefix: string) {
    |prefix| <= |s| && s[..|prefix|] == prefix
  }

  // ------------------------------------------------------------------
  // Whitespace split

  /** Length of the run of non-whitespace at the start of `s`. */
  function WordLength(s: string): (n: nat)
    ensures n <= |s|
    ensures forall i :: 0 <= i < n ==> !IsSpace(s[i])
    ensures n == |s| || IsSpace(s[n])
  {
    if s == [] || IsSpace(s[0]) then 0 else 1 + WordLength(s[1..])
  }

  /** Python's `str.split()` with no separator: the maximal runs of
      non-whitespace, in order; runs of whitespace, leading and trailing
      whitespace produce no empty fields. */
  function Fields(s: string): (r: seq<string>)
    ensures forall i :: 0 <= i < |r| ==> IsWord(r[i])
    decreases |s|
  {
    var t := TrimStart(s);
    TrimStartSpec(s);
    if t == [] then []
    else
      var n := WordLength(t);
      [t[..n]] + Fields(t[n..])
  }

  lemma NonSpaceOfTrimStart(s: string)
    ensures NonSpace(TrimStart(s)) == NonSpace(s)
  {
    var t := TrimStart(s);
    var k := |s| - |t|;
    TrimStartSpec(s);
    assert s == s[..k] + t;
    FilterAppend(NotSpace, s[..k], t);
    FilterDropsAll(NotSpace, s[..k]);
  }

  /** One step of the whitespace split: the first word, then the fields of
      what follows it. */
  lemma FieldsStep(s: string)
    requires TrimStart(s) != []
    ensures var t := TrimStart(s);
      Fields(s) == [t[..WordLength(t)]] + Fields(t[WordLength(t)..])
  {
  }

  lemma NonSpaceOfWord(t: string)
    ensures var n := WordLength(t);
      NonSpace(t) == t[..n] + NonSpace(t[n..])
  {
    var n := WordLength(t);
    var w := t[..n];
    assert t == w + t[n..];
    FilterAppend(NotSpace, w, t[n..]);
    FilterKeepsAll(NotSpace, w);
  }

  /** The fields hold exactly the non-whitespace characters of the line. */
  lemma {:induction false} FieldsConcat(s: string)
    ensures Concat(Fields(s)) == NonSpace(s)
    decreases |s|
  {
    var t := TrimStart(s);
    TrimStartSpec(s);
    NonSpaceOfTrimStart(s);
    if t != [] {
      var n := WordLength(t);
      NonSpaceOfWord(t);
      FieldsConcat(t[n..]);
      FieldsStep(s);
      var r := Fields(s);
      assert r[1..] == Fields(t[n..]);
    }
  }

  lemma FieldsSkipsSpace(s: string)
    ensures Fields(" " + s) == Fields(s)
  {
    assert (" " + s)[1..] == s;
  }

  lemma {:induction false} WordLengthOfWord(w: string, rest: string)
    requires IsWord(w)
    requires rest == [] || IsSpace(rest[0])
    ensures WordLength(w + rest) == |w|
    decreases |w|
  {
    if |w| > 1 {
      assert (w + rest)[1..] == w[1..] + rest;
      WordLengthOfWord(w[1..], rest);
    } else {
      assert (w + rest)[1..] == rest;
    }
  }

  lemma JoinShape(ws: seq<string>)
    requires |ws| > 0 && IsWord(ws[0])
    ensures var s := JoinWith(ws, " ");
      var rest := if |ws| == 1 then "" else " " + JoinWith(ws[1..], " ");
      && s == ws[0] + rest && !IsSpace(s[0])
      && s[..|ws[0]|] == ws[0] && s[|ws[0]|..] == rest
  {
    var s := JoinWith(ws, " ");
    assert s[0] == ws[0][0];
  }

  /** The first field of a join is its first word. */
  lemma FieldsOfJoinStep(ws: seq<string>)
    requires |ws| > 0 && IsWord(ws[0])
    ensures Fields(JoinWith(ws, " "))
         == [ws[0]] + (if |ws| == 1 then [] else Fields(JoinWith(ws[1..], " ")))
  {
    var w := ws[0];
    var rest := if |ws| == 1 then "" else " " + JoinWith(ws[1..], " ");
    var s := JoinWith(ws, " ");
    JoinShape(ws);
    TrimStartKeeps(s);
    WordLengthOfWord(w, rest);
    FieldsStep(s);
    if |ws| > 1 {
      FieldsSkipsSpace(JoinWith(ws[1..], " "));
    }
  }

  /** Splitting words joined by single spaces gives the words back. */
  lemma {:induction false} FieldsOfJoin(ws: seq<string>)
    requires forall i :: 0 <= i < |ws| ==> IsWord(ws[i])
    ensures Fields(JoinWith(ws, " ")) == ws
  {
    if |ws| > 0 {
      FieldsOfJoinStep(ws);
      if |ws| > 1 {
        FieldsOfJoin(ws[1..]);
        assert ws == [ws[0]] + ws[1..];
      }
    }
  }

  /** Words joined by spaces contain a space as soon as there are two of them. */
  lemma JoinHasSpace(ws: seq<string>)
    requires |ws| >= 2
    ensures ' ' in JoinWith(ws, " ")
  {
    assert JoinWith(ws, " ")[|ws[0]|] == ' ';
  }

  // ------------------------------------------------------------------
  // Split on one separator

  /** Index of the first `c` in `s`. */
  function IndexOf(s: string, c: char): (i: nat)
    requires c in s
    ensures i < |s| && s[i] == c && c !in s[..i]
  {
    if s[0] == c then 0 else 1 + IndexOf(s[1..], c)
  }

  /** The first occurrence of `c` is where `c` stands with none before it. */
  lemma IndexOfAt(s: string, c: char, i: nat)
    requires i < |s| && s[i] == c && c !in s[..i]
    ensures IndexOf(s, c) == i
  {
  }

  /** Python's `str.split(sep)` for a one-character separator: the pieces
      between separators, empty pieces included, which join back into `s`. */
  function Split(s: string, sep: char): (r: seq<string>)
    ensures |r| >= 1
    ensures forall i :: 0 <= i < |r| ==> sep !in r[i]
    ensures JoinWith(r, [sep]) == s
    decreases |s|
  {
    if sep in s then
      var i := IndexOf(s, sep);
      var rest := Split(s[i + 1..], sep);
      assert s == s[..i] + [sep] + s[i + 1..];
      assert ([s[..i]] + rest)[1..] == rest;
      [s[..i]] + rest
    else
      [s]
  }

  /** Splitting a piece that holds no separator, followed by the separator. */
  lemma SplitPiece(x: string, y: string, sep: char)
    requires sep !in x
    ensures Split(x + [sep] + y, sep) == [x] + Split(y, sep)
  {
    var s := x + [sep] + y;
    assert s[|x|] == sep && s[..|x|] == x;
    IndexOfAt(s, sep, |x|);
    assert s[|x| + 1..] == y;
  }

  /** Splitting distributes over joining two texts with the separator. */
  lemma {:induction false} SplitJoin(a: string, b: string, sep: char)
    ensures Split(a + [sep] + b, sep) == Split(a, sep) + Split(b, sep)
    decreases |a|
  {
    if sep in a {
      var i := IndexOf(a, sep);
      var x, rest := a[..i], a[i + 1..];
      assert a == x + [sep] + rest;
      assert a + [sep] + b == x + [sep] + (rest + [sep] + b);
      SplitPiece(x, rest + [sep] + b, sep);
      SplitJoin(rest, b, sep);
      SplitPiece(x, rest, sep);
    } else {
      SplitPiece(a, b, sep);
    }
  }

  /** Split undoes a join of pieces that hold no separator, so together
      with the join in Split's contract the two are inverse. */
  lemma {:induction false} SplitOfJoin(ws: seq<string>, sep: char)
    requires |ws| >= 1
    requires forall i :: 0 <= i < |ws| ==> sep !in ws[i]
    ensures Split(JoinWith(ws, [sep]), sep) == ws
    decreases |ws|
  {
    if |ws| > 1 {
      SplitOfJoin(ws[1..], sep);
      SplitPiece(ws[0], JoinWith(ws[1..], [sep]), sep);
      assert ws == [ws[0]] + ws[1..];
    }
  }

  // ------------------------------------------------------------------
  // Case

  function LowerChar(c: char): char {
    if IsUpper(c) then (c as int + 32) as char else c
  }

  /** Python's `str.lower()` on ASCII letters; other characters are kept. */
  function Lower(s: string): (r: string)
    ensures |r| == |s|
    ensures forall i :: 0 <= i < |s| ==> r[i] == LowerChar(s[i])
  {
    if s == [] then "" else [LowerChar(s[0])] + Lower(s[1..])
  }

  /** A lowered string has no upper-case letter, and lowering it again changes nothing. */
  lemma LowerIsLower(s: string)
    ensures forall i :: 0 <= i < |s| ==> !IsUpper(Lower(s)[i])
    ensures Lower(Lower(s)) == Lower(s)
  {
  }

  // ------------------------------------------------------------------
  // Decimal digits

  function DigitChar(d: nat): (c: char)
    requires d < 10
    ensures IsDigit(c)
  {
    ('0' as int + d) as char
  }

  function DigitValue(c: char): (d: nat)
    requires IsDigit(c)
    ensures d < 10
  {
    c as int - '0' as int
  }

  function Pow10(k: nat): (r: nat)
    ensures r >= 1
  {
    if k == 0 then 1 else 10 * Pow10(k - 1)
  }

  /** Python's `'%d' % n` for a non-negative `n`: decimal digits, no leading zero. */
  function NatToDigits(n: nat): (r: string)
    ensures |r| >= 1 && AllDigits(r)
    ensures |r| > 1 ==> r[0] != '0'
    decreases n
  {
    if n < 10 then [DigitChar(n)] else NatToDigits(n / 10) + [DigitChar(n % 10)]
  }

  /** The number a string of decimal digits denotes. */
  function DigitsValue(s: string): nat
    requires AllDigits(s)
  {
    if s == [] then 0 else 10 * DigitsValue(s[..|s| - 1]) + DigitValue(s[|s| - 1])
  }

  /** Reading the decimal text of `n` gives `n` back. */
  lemma {:induction false} DigitsRoundTrip(n: nat)
    ensures DigitsValue(NatToDigits(n)) == n
    decreases n
  {
    if n >= 10 {
      var d := NatToDigits(n / 10);
      var s := d + [DigitChar(n % 10)];
      assert s[..|s| - 1] == d;
      DigitsRoundTrip(n / 10);
    }
  }

  /** Three digits with leading zeros, for a value below 1000. */
  function Pad3(n: nat): (r: string)
    requires n < 1000
    ensures |r| == 3 && AllDigits(r)
  {
    [DigitChar(n / 100), DigitChar(n / 10 % 10), DigitChar(n % 10)]
  }

  lemma Pad3RoundTrip(n: nat)
    requires n < 1000
    ensures DigitsValue(Pad3(n)) == n
  {
    var a, b, c := n / 100, n / 10 % 10, n % 10;
    assert n == 100 * a + 10 * b + c;
    ThreeDigitsValue(a, b, c);
  }

  lemma ThreeDigitsValue(a: nat, b: nat, c: nat)
    requires a < 10 && b < 10 && c < 10
    ensures DigitsValue([DigitChar(a), DigitChar(b), DigitChar(c)]) == 100 * a + 10 * b + c
  {
    var r := [DigitChar(a), DigitChar(b), DigitChar(c)];
    assert DigitsValue(r[..1]) == a by {
      assert r[..1][..0] == [];
    }
    assert DigitsValue(r[..2]) == 10 * a + b by {
      assert r[..2][..1] == r[..1];
    }
    assert r[..3] == r;
  }

}
