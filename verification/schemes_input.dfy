/** The single-line scheme grammar and the document path around it: a line
    of 7, 9, 12, 17 or 18 whitespace-separated fields is decoded into one
    scheme, the layout being chosen by the field count alone; a document is
    stripped of comment lines and, when it is not JSON, decoded line by line. */
module SchemesInput {
  import opened Wrappers
  import opened Text
  import opened FmtStr
  import opened Damon

  /** The value readers the fields of a line go through: byte sizes,
      frequencies, durations in microseconds and in milliseconds, and
      Python's `int()`. */
  datatype Readers = Readers(
    bytes: string -> Result<nat, FmtError>,
    percent: string -> Result<real, FmtError>,
    us: string -> Result<nat, FmtError>,
    ms: string -> Result<nat, FmtError>,
    integer: string -> Result<int, FmtError>)

  /** The readers of `_damo_fmt_str` and `int()`. How a frequency field
      without a '%' marker reads (a bare number, `min`, `max`) is not part
      of this model and is supplied as `percentOther`. */
  function StandardReaders(percentOther: string -> Result<real, FmtError>): Readers {
    Readers(TextToBytes, s => TextToPercent(s, percentOther), TextToUs, TextToMs, TextToInt)
  }

  /** What the decoders take from code outside the grammar: the scheme
      every line starts from (`default_damos_scheme`) and the readers. */
  datatype Collaborators = Collaborators(defaultScheme: Scheme, read: Readers)

  /** The field counts of the five historical layouts, v0 to v4. */
  const EXPECTED_LENGTHS: seq<nat> := [7, 9, 12, 17, 18]

  /** A field count one of the layouts has. */
  predicate Accepted(n: nat) {
    n == 7 || n == 9 || n == 12 || n == 17 || n == 18
  }

  /** Why a line did not decode. */
  datatype LineError =
    | WrongFieldCount(line: string)
    | WrongInputField

  /** Python's `str()` of a list of integers: `[a, b, c]`. */
  function ListText(ns: seq<nat>): string {
    "[" + JoinWith(seq(|ns|, i requires 0 <= i < |ns| => IntToText(ns[i])), ", ") + "]"
  }

  /** The text the line decoder returns as its error. */
  function LineErrorMessage(e: LineError): string {
    match e
    case WrongFieldCount(line) => "expected " + ListText(EXPECTED_LENGTHS) + " fields, but '" + line + "'"
    case WrongInputField => "wrong input field"
  }

  // ==================================================================
  // The per-version helpers

  /** `fields_to_v0_scheme`: the access pattern from fields 0-5 and the
      action from field 6, on top of the default scheme. */
  function FieldsToV0(fields: seq<string>, env: Collaborators): Result<Scheme, FmtError>
    requires |fields| >= 7
  {
    var minSz :- env.read.bytes(fields[0]);
    var maxSz :- env.read.bytes(fields[1]);
    var minNr :- env.read.percent(fields[2]);
    var maxNr :- env.read.percent(fields[3]);
    var minAge :- env.read.us(fields[4]);
    var maxAge :- env.read.us(fields[5]);
    Ok(env.defaultScheme.(
      pattern := AccessPattern(minSz, maxSz, minNr, maxNr, UnitPercent, minAge, maxAge, UnitUsec),
      action := Lower(fields[6])))
  }

  /** `fields_to_v1_scheme`: v0 plus the size quota and its reset interval. */
  function FieldsToV1(fields: seq<string>, env: Collaborators): Result<Scheme, FmtError>
    requires |fields| >= 9
  {
    var s :- FieldsToV0(fields, env);
    var sz :- env.read.bytes(fields[7]);
    var reset :- env.read.ms(fields[8]);
    Ok(s.(quotas := s.quotas.(szBytes := sz, resetIntervalMs := reset)))
  }

  /** `fields_to_v2_scheme`: v1 plus the three priority weights. */
  function FieldsToV2(fields: seq<string>, env: Collaborators): Result<Scheme, FmtError>
    requires |fields| >= 12
  {
    var s :- FieldsToV1(fields, env);
    var wSz :- env.read.integer(fields[9]);
    var wNr :- env.read.integer(fields[10]);
    var wAge :- env.read.integer(fields[11]);
    Ok(s.(quotas := s.quotas.(weightSzPermil := wSz, weightNrAccessesPermil := wNr, weightAgePermil := wAge)))
  }

  /** `fields_to_v3_scheme`: v2 plus the five watermark fields. */
  function FieldsToV3(fields: seq<string>, env: Collaborators): Result<Scheme, FmtError>
    requires |fields| >= 17
  {
    var s :- FieldsToV2(fields, env);
    var interval :- env.read.us(fields[13]);
    var high :- env.read.integer(fields[14]);
    var mid :- env.read.integer(fields[15]);
    var low :- env.read.integer(fields[16]);
    Ok(s.(watermarks := s.watermarks.(
      metric := Lower(fields[12]), intervalUs := interval, highPermil := high, midPermil := mid, lowPermil := low)))
  }

  /** `fields_to_v4_scheme`: v0 plus the time quota and its own mapping of
      fields 7-17; not an extension of v3 by position. */
  function FieldsToV4(fields: seq<string>, env: Collaborators): Result<Scheme, FmtError>
    requires |fields| >= 18
  {
    var s :- FieldsToV0(fields, env);
    var time :- env.read.ms(fields[7]);
    var sz :- env.read.bytes(fields[8]);
    var reset :- env.read.ms(fields[9]);
    var wSz :- env.read.integer(fields[10]);
    var wNr :- env.read.integer(fields[11]);
    var wAge :- env.read.integer(fields[12]);
    var interval :- env.read.us(fields[14]);
    var high :- env.read.integer(fields[15]);
    var mid :- env.read.integer(fields[16]);
    var low :- env.read.integer(fields[17]);
    Ok(s.(
      quotas := s.quotas.(timeMs := time, szBytes := sz, resetIntervalMs := reset,
        weightSzPermil := wSz, weightNrAccessesPermil := wNr, weightAgePermil := wAge),
      watermarks := s.watermarks.(
        metric := Lower(fields[13]), intervalUs := interval, highPermil := high, midPermil := mid, lowPermil := low)))
  }

  // ==================================================================
  // The layouts as a table

  /** Every scheme attribute a line field can fill. */
  datatype Slot =
    | MinSz | MaxSz | MinNr | MaxNr | MinAge | MaxAge | Action
    | QuotaTime | QuotaSz | QuotaReset | WeightSz | WeightNr | WeightAge
    | Metric | WmInterval | WmHigh | WmMid | WmLow

  /** The value held in one slot. */
  datatype Value = NatValue(n: nat) | RealValue(x: real) | IntValue(i: int) | TextValue(s: string)

  const PATTERN_SLOTS: seq<Slot> := [MinSz, MaxSz, MinNr, MaxNr, MinAge, MaxAge, Action]

  /** Which slot each field fills, field by field, for each accepted count:
      v1 to v3 extend v0 a block at a time, v4 has its own order. */
  function Layout(n: nat): (r: seq<Slot>)
    requires Accepted(n)
    ensures |r| == n
  {
    if n == 7 then PATTERN_SLOTS
    else if n == 9 then PATTERN_SLOTS + [QuotaSz, QuotaReset]
    else if n == 12 then PATTERN_SLOTS + [QuotaSz, QuotaReset, WeightSz, WeightNr, WeightAge]
    else if n == 17 then
      PATTERN_SLOTS + [QuotaSz, QuotaReset, WeightSz, WeightNr, WeightAge, Metric, WmInterval, WmHigh, WmMid, WmLow]
    else
      PATTERN_SLOTS + [QuotaTime, QuotaSz, QuotaReset, WeightSz, WeightNr, WeightAge, Metric, WmInterval, WmHigh, WmMid, WmLow]
  }

  /** How the text of a field is read for a slot: sizes as bytes, ages and
      the watermark interval in microseconds, quota times in milliseconds,
      frequencies as percent, weights and thresholds with `int()`, and the
      action and metric lowered. */
  function Convert(slot: Slot, text: string, env: Collaborators): Result<Value, FmtError> {
    match slot
    case MinSz | MaxSz | QuotaSz =>
      var v :- env.read.bytes(text); Ok(NatValue(v))
    case MinNr | MaxNr =>
      var v :- env.read.percent(text); Ok(RealValue(v))
    case MinAge | MaxAge | WmInterval =>
      var v :- env.read.us(text); Ok(NatValue(v))
    case QuotaTime | QuotaReset =>
      var v :- env.read.ms(text); Ok(NatValue(v))
    case WeightSz | WeightNr | WeightAge | WmHigh | WmMid | WmLow =>
      var v :- env.read.integer(text); Ok(IntValue(v))
    case Action | Metric =>
      Ok(TextValue(Lower(text)))
  }

  /** The value a scheme holds in a slot. */
  function Get(s: Scheme, slot: Slot): Value {
    match slot
    case MinSz => NatValue(s.pattern.minSzBytes)
    case MaxSz => NatValue(s.pattern.maxSzBytes)
    case MinNr => RealValue(s.pattern.minNrAccesses)
    case MaxNr => RealValue(s.pattern.maxNrAccesses)
    case MinAge => NatValue(s.pattern.minAge)
    case MaxAge => NatValue(s.pattern.maxAge)
    case Action => TextValue(s.action)
    case QuotaTime => NatValue(s.quotas.timeMs)
    case QuotaSz => NatValue(s.quotas.szBytes)
    case QuotaReset => NatValue(s.quotas.resetIntervalMs)
    case WeightSz => IntValue(s.quotas.weightSzPermil)
    case WeightNr => IntValue(s.quotas.weightNrAccessesPermil)
    case WeightAge => IntValue(s.quotas.weightAgePermil)
    case Metric => TextValue(s.watermarks.metric)
    case WmInterval => NatValue(s.watermarks.intervalUs)
    case WmHigh => IntValue(s.watermarks.highPermil)
    case WmMid => IntValue(s.watermarks.midPermil)
    case WmLow => IntValue(s.watermarks.lowPermil)
  }

  /** The field that fills `slot` in a line of `n` fields, if any: the
      same table as Layout, read by slot. */
  function FieldOf(n: nat, slot: Slot): Option<nat> {
    match slot
    case MinSz => Some(0)
    case MaxSz => Some(1)
    case MinNr => Some(2)
    case MaxNr => Some(3)
    case MinAge => Some(4)
    case MaxAge => Some(5)
    case Action => Some(6)
    case QuotaTime => if n == 18 then Some(7) else None
    case QuotaSz => if n == 18 then Some(8) else if n >= 9 then Some(7) else None
    case QuotaReset => if n == 18 then Some(9) else if n >= 9 then Some(8) else None
    case WeightSz => if n == 18 then Some(10) else if n >= 12 then Some(9) else None
    case WeightNr => if n == 18 then Some(11) else if n >= 12 then Some(10) else None
    case WeightAge => if n == 18 then Some(12) else if n >= 12 then Some(11) else None
    case Metric => if n == 18 then Some(13) else if n == 17 then Some(12) else None
    case WmInterval => if n == 18 then Some(14) else if n == 17 then Some(13) else None
    case WmHigh => if n == 18 then Some(15) else if n == 17 then Some(14) else None
    case WmMid => if n == 18 then Some(16) else if n == 17 then Some(15) else None
    case WmLow => if n == 18 then Some(17) else if n == 17 then Some(16) else None
  }

  /** Every slot the layout fills has a field that converts for it. */
  predicate AllConvert(fields: seq<string>, env: Collaborators)
    requires Accepted(|fields|)
  {
    forall slot :: FieldOf(|fields|, slot).Some? ==>
      FieldOf(|fields|, slot).value < |fields| && Convert(slot, fields[FieldOf(|fields|, slot).value], env).Ok?
  }

  /** `s` is the default scheme with exactly the layout's slots filled from
      their fields, and the line grammar's units. */
  predicate FilledFrom(s: Scheme, fields: seq<string>, env: Collaborators)
    requires Accepted(|fields|)
  {
    var d := env.defaultScheme;
    && (forall slot :: FieldOf(|fields|, slot).Some? ==>
          FieldOf(|fields|, slot).value < |fields|
          && Convert(slot, fields[FieldOf(|fields|, slot).value], env) == Ok(Get(s, slot)))
    && (forall slot :: FieldOf(|fields|, slot).None? ==> Get(s, slot) == Get(d, slot))
    && s.pattern.nrAccessesUnit == UnitPercent && s.pattern.ageUnit == UnitUsec
    && s.name == d.name && s.filters == d.filters
  }

  // ==================================================================
  // The line decoder

  /** The body of the `try` in `damo_single_line_scheme_to_damos`: the
      pattern and action, then, below 18 fields, the size quota from 9
      fields, the weights from 12 and the watermarks at exactly 17; at 18
      fields, the v4 mapping. */
  function DecodeFields(fields: seq<string>, env: Collaborators): Result<Scheme, FmtError>
    requires Accepted(|fields|)
  {
    var minSz :- env.read.bytes(fields[0]);
    var maxSz :- env.read.bytes(fields[1]);
    var minNr :- env.read.percent(fields[2]);
    var maxNr :- env.read.percent(fields[3]);
    var minAge :- env.read.us(fields[4]);
    var maxAge :- env.read.us(fields[5]);
    var base := env.defaultScheme.(
      pattern := AccessPattern(minSz, maxSz, minNr, maxNr, UnitPercent, minAge, maxAge, UnitUsec),
      action := Lower(fields[6]));
    if |fields| == 7 then
      Ok(base)
    else if |fields| <= 17 then
      var s1 :- if |fields| >= 9 then
          var sz :- env.read.bytes(fields[7]);
          var reset :- env.read.ms(fields[8]);
          Ok(base.(quotas := base.quotas.(szBytes := sz, resetIntervalMs := reset)))
        else Ok(base);
      var s2 :- if |fields| >= 12 then
          var wSz :- env.read.integer(fields[9]);
          var wNr :- env.read.integer(fields[10]);
          var wAge :- env.read.integer(fields[11]);
          Ok(s1.(quotas := s1.quotas.(weightSzPermil := wSz, weightNrAccessesPermil := wNr, weightAgePermil := wAge)))
        else Ok(s1);
      if |fields| == 17 then
        var interval :- env.read.us(fields[13]);
        var high :- env.read.integer(fields[14]);
        var mid :- env.read.integer(fields[15]);
        var low :- env.read.integer(fields[16]);
        Ok(s2.(watermarks := s2.watermarks.(
          metric := Lower(fields[12]), intervalUs := interval, highPermil := high, midPermil := mid, lowPermil := low)))
      else
        Ok(s2)
    else
      var time :- env.read.ms(fields[7]);
      var sz :- env.read.bytes(fields[8]);
      var reset :- env.read.ms(fields[9]);
      var wSz :- env.read.integer(fields[10]);
      var wNr :- env.read.integer(fields[11]);
      var wAge :- env.read.integer(fields[12]);
      var interval :- env.read.us(fields[14]);
      var high :- env.read.integer(fields[15]);
      var mid :- env.read.integer(fields[16]);
      var low :- env.read.integer(fields[17]);
      Ok(base.(
        quotas := base.quotas.(timeMs := time, szBytes := sz, resetIntervalMs := reset,
          weightSzPermil := wSz, weightNrAccessesPermil := wNr, weightAgePermil := wAge),
        watermarks := base.watermarks.(
          metric := Lower(fields[13]), intervalUs := interval, highPermil := high, midPermil := mid, lowPermil := low)))
  }

  /** `damo_single_line_scheme_to_damos`: a field count outside the five
      layouts is rejected naming the line, and any field that does not
      convert is reported as one generic error. */
  function DecodeLine(line: string, env: Collaborators): (r: Result<Scheme, LineError>)
    ensures r == Err(WrongFieldCount(line)) <==> !Accepted(|Fields(line)|)
    ensures r.Err? && Accepted(|Fields(line)|) ==> r.error == WrongInputField
  {
    var fields := Fields(line);
    if !Accepted(|fields|) then
      Err(WrongFieldCount(line))
    else
      match DecodeFields(fields, env)
      case Ok(s) => Ok(s)
      case Err(_) => Err(WrongInputField)
  }

  // ==================================================================
  // The document

  /** A comment line: its stripped form starts with '#'. */
  predicate IsComment(line: string) {
    StartsWith(Strip(line), "#")
  }

  predicate NotComment(line: string) {
    !IsComment(line)
  }

  /** The lines of `t` that are not comments, in order; blank lines stay. */
  function SchemeLines(t: string): seq<string> {
    Filter(NotComment, Split(t, '\n'))
  }

  /** `damo_schemes_lines_except_comments`: the text is stripped as a
      whole, split at newlines, and the comment lines dropped. */
  function LinesExceptComments(txt: string): (r: seq<string>)
    ensures forall i :: 0 <= i < |r| ==> NotComment(r[i])
  {
    SchemeLines(Strip(txt))
  }

  predicate NotBlank(t: string) {
    t != ""
  }

  /** What the fallback hands to the line decoder: every line stripped, and
      the ones left empty skipped. */
  function Candidates(lines: seq<string>): seq<string> {
    Filter(NotBlank, seq(|lines|, i requires 0 <= i < |lines| => Strip(lines[i])))
  }

  /** `schemes` holds the decode of each of `cands`, in order. */
  predicate DecodesAll(cands: seq<string>, env: Collaborators, schemes: seq<Scheme>) {
    && |schemes| == |cands|
    && forall i :: 0 <= i < |cands| ==> DecodeLine(cands[i], env) == Ok(schemes[i])
  }

  /** `e` is the error of the first of `cands` that does not decode. */
  predicate FirstError(cands: seq<string>, env: Collaborators, e: LineError) {
    exists k :: 0 <= k < |cands| && DecodeLine(cands[k], env) == Err(e)
      && forall j :: 0 <= j < k ==> DecodeLine(cands[j], env).Ok?
  }

  /** The outcome of decoding `cands` one after the other and stopping at
      the first failure. */
  predicate LineByLine(cands: seq<string>, env: Collaborators, r: Result<seq<Scheme>, LineError>) {
    match r
    case Ok(schemes) => DecodesAll(cands, env, schemes)
    case Err(e) => FirstError(cands, env, e)
  }

  /** Stripping and skipping blank lines works line by line. */
  lemma CandidatesAppend(a: seq<string>, b: seq<string>)
    ensures Candidates(a + b) == Candidates(a) + Candidates(b)
  {
    var sa := seq(|a|, i requires 0 <= i < |a| => Strip(a[i]));
    var sb := seq(|b|, i requires 0 <= i < |b| => Strip(b[i]));
    assert seq(|a + b|, i requires 0 <= i < |a + b| => Strip((a + b)[i])) == sa + sb;
    FilterAppend(NotBlank, sa, sb);
  }

  /** The last line's contribution to the candidates. */
  lemma CandidatesSnoc(a: seq<string>, line: string)
    ensures Candidates(a + [line]) == Candidates(a) + (if Strip(line) == "" then [] else [Strip(line)])
  {
    CandidatesAppend(a, [line]);
    assert seq(1, i requires 0 <= i < 1 => Strip([line][i])) == [Strip(line)];
  }

  /** The line fallback of `damo_schemes_to_damos`: each line is stripped,
      blank ones are skipped, the others are decoded in order, and the
      first one that does not decode stops the loop with its error. */
  method DecodeLines(lines: seq<string>, env: Collaborators) returns (r: Result<seq<Scheme>, LineError>)
    ensures LineByLine(Candidates(lines), env, r)
  {
    var schemes: seq<Scheme> := [];
    var i := 0;
    while i < |lines|
      invariant 0 <= i <= |lines|
      invariant DecodesAll(Candidates(lines[..i]), env, schemes)
    {
      var line := Strip(lines[i]);
      assert lines[..i + 1] == lines[..i] + [lines[i]];
      CandidatesSnoc(lines[..i], lines[i]);
      if line != "" {
        var d := DecodeLine(line, env);
        if d.Err? {
          var done := Candidates(lines[..i]);
          assert lines == lines[..i + 1] + lines[i + 1..];
          CandidatesAppend(lines[..i + 1], lines[i + 1..]);
          var all := Candidates(lines);
          assert all[|done|] == line;
          assert forall j :: 0 <= j < |done| ==> all[j] == done[j];
          assert DecodeLine(all[|done|], env) == Err(d.error);
          return Err(d.error);
        }
        schemes := schemes + [d.value];
      }
      i := i + 1;
    }
    assert lines[..i] == lines;
    return Ok(schemes);
  }

  /** Why a document is refused: the first scheme line that does not decode. */
  datatype DocError = NotSchemes(cause: LineError)

  /** The text printed before the program exits on a refused document. */
  function DocErrorMessage(e: DocError): string {
    "given scheme is neither file nor proper scheme string (" + LineErrorMessage(e.cause) + ")"
  }

  /** `damo_schemes_to_damos` on the text of the document. `json` stands for
      parsing the comment-free lines, joined by newlines, as JSON and
      converting every object; it yields None when either step raises, and
      the lines are then decoded one by one. */
  method SchemesToDamos(txt: string, env: Collaborators, json: string -> Option<seq<Scheme>>)
    returns (r: Result<seq<Scheme>, DocError>)
    ensures json(JoinWith(LinesExceptComments(txt), "\n")).Some? ==>
      r == Ok(json(JoinWith(LinesExceptComments(txt), "\n")).value)
    ensures json(JoinWith(LinesExceptComments(txt), "\n")).None? ==>
      LineByLine(Candidates(LinesExceptComments(txt)), env,
        match r case Ok(schemes) => Ok(schemes) case Err(e) => Err(e.cause))
  {
    var lines := LinesExceptComments(txt);
    var parsed := json(JoinWith(lines, "\n"));
    if parsed.Some? {
      return Ok(parsed.value);
    }
    var decoded := DecodeLines(lines, env);
    match decoded
    case Ok(schemes) => r := Ok(schemes);
    case Err(e) => r := Err(NotSchemes(e));
  }
}
