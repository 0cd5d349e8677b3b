/** What the line decoder promises: the inline dispatch agrees with the
    per-version helpers, and a line decodes exactly when every field its
    layout names converts, into the default scheme with exactly those slots
    replaced. */
module SchemesLaws {
  import opened Wrappers
  import opened Text
  import opened FmtStr
  import opened Damon
  import opened SchemesInput

  // ==================================================================
  // Inline dispatch against the per-version helpers

  lemma DispatchSeven(fields: seq<string>, env: Collaborators)
    requires |fields| == 7
    ensures DecodeFields(fields, env) == FieldsToV0(fields, env)
  {
  }

  lemma DispatchNine(fields: seq<string>, env: Collaborators)
    requires |fields| == 9
    ensures DecodeFields(fields, env) == FieldsToV1(fields, env)
  {
  }

  lemma DispatchTwelve(fields: seq<string>, env: Collaborators)
    requires |fields| == 12
    ensures DecodeFields(fields, env) == FieldsToV2(fields, env)
  {
  }

  lemma DispatchSeventeen(fields: seq<string>, env: Collaborators)
    requires |fields| == 17
    ensures DecodeFields(fields, env) == FieldsToV3(fields, env)
  {
  }

  lemma DispatchEighteen(fields: seq<string>, env: Collaborators)
    requires |fields| == 18
    ensures DecodeFields(fields, env) == FieldsToV4(fields, env)
  {
  }

  /** The decoder's inline branches compute what the helper of the layout
      its field count selects computes, error or scheme. */
  lemma DecodeFieldsIsHelper(fields: seq<string>, env: Collaborators)
    requires Accepted(|fields|)
    ensures |fields| == 7 ==> DecodeFields(fields, env) == FieldsToV0(fields, env)
    ensures |fields| == 9 ==> DecodeFields(fields, env) == FieldsToV1(fields, env)
    ensures |fields| == 12 ==> DecodeFields(fields, env) == FieldsToV2(fields, env)
    ensures |fields| == 17 ==> DecodeFields(fields, env) == FieldsToV3(fields, env)
    ensures |fields| == 18 ==> DecodeFields(fields, env) == FieldsToV4(fields, env)
  {
    if |fields| == 7 {
      DispatchSeven(fields, env);
    } else if |fields| == 9 {
      DispatchNine(fields, env);
    } else if |fields| == 12 {
      DispatchTwelve(fields, env);
    } else if |fields| == 17 {
      DispatchSeventeen(fields, env);
    } else {
      DispatchEighteen(fields, env);
    }
  }

  // ==================================================================
  // Each layout against the table

  /** The six pattern fields of any accepted line convert when the table
      says every assigned field does. */
  lemma PatternReaders(fields: seq<string>, env: Collaborators)
    requires Accepted(|fields|)
    requires AllConvert(fields, env)
    ensures env.read.bytes(fields[0]).Ok? && env.read.bytes(fields[1]).Ok?
    ensures env.read.percent(fields[2]).Ok? && env.read.percent(fields[3]).Ok?
    ensures env.read.us(fields[4]).Ok? && env.read.us(fields[5]).Ok?
  {
    var n := |fields|;
    assert FieldOf(n, MinSz).Some? && FieldOf(n, MaxSz).Some? && FieldOf(n, MinNr).Some?;
    assert FieldOf(n, MaxNr).Some? && FieldOf(n, MinAge).Some? && FieldOf(n, MaxAge).Some?;
  }

  lemma OkSeven(fields: seq<string>, env: Collaborators)
    requires |fields| == 7
    ensures DecodeFields(fields, env).Ok? <==> AllConvert(fields, env)
    ensures DecodeFields(fields, env).Ok? ==> FilledFrom(DecodeFields(fields, env).value, fields, env)
  {
    var n := |fields|;
    if AllConvert(fields, env) {
      assert FieldOf(n, MinSz).Some? && FieldOf(n, MaxSz).Some? && FieldOf(n, MinNr).Some?;
      assert FieldOf(n, MaxNr).Some? && FieldOf(n, MinAge).Some? && FieldOf(n, MaxAge).Some?;
    }
  }

  lemma OkNine(fields: seq<string>, env: Collaborators)
    requires |fields| == 9
    ensures DecodeFields(fields, env).Ok? <==> AllConvert(fields, env)
  {
    var n := |fields|;
    if AllConvert(fields, env) {
      assert FieldOf(n, MinSz).Some? && FieldOf(n, MaxSz).Some? && FieldOf(n, MinNr).Some?;
      assert FieldOf(n, MaxNr).Some? && FieldOf(n, MinAge).Some? && FieldOf(n, MaxAge).Some?;
      assert FieldOf(n, QuotaSz).Some? && FieldOf(n, QuotaReset).Some?;
    }
  }

  lemma FilledNine(fields: seq<string>, env: Collaborators)
    requires |fields| == 9
    requires DecodeFields(fields, env).Ok?
    ensures FilledFrom(DecodeFields(fields, env).value, fields, env)
  {
  }

  lemma OkTwelve(fields: seq<string>, env: Collaborators)
    requires |fields| == 12
    ensures DecodeFields(fields, env).Ok? <==> AllConvert(fields, env)
  {
    if AllConvert(fields, env) {
      PatternReaders(fields, env);
      WeightReaders(fields, env);
    }
  }

  lemma FilledTwelve(fields: seq<string>, env: Collaborators)
    requires |fields| == 12
    requires DecodeFields(fields, env).Ok?
    ensures FilledFrom(DecodeFields(fields, env).value, fields, env)
  {
  }

  lemma OkSeventeenOnly(fields: seq<string>, env: Collaborators)
    requires |fields| == 17
    requires DecodeFields(fields, env).Ok?
    ensures AllConvert(fields, env)
  {
  }

  lemma WeightReaders(fields: seq<string>, env: Collaborators)
    requires |fields| == 12 || |fields| == 17
    requires AllConvert(fields, env)
    ensures env.read.bytes(fields[7]).Ok? && env.read.ms(fields[8]).Ok?
    ensures env.read.integer(fields[9]).Ok? && env.read.integer(fields[10]).Ok? && env.read.integer(fields[11]).Ok?
  {
    var n := |fields|;
    assert FieldOf(n, QuotaSz).Some? && FieldOf(n, QuotaReset).Some?;
    assert FieldOf(n, WeightSz).Some? && FieldOf(n, WeightNr).Some? && FieldOf(n, WeightAge).Some?;
  }

  lemma SeventeenWatermarkReaders(fields: seq<string>, env: Collaborators)
    requires |fields| == 17
    requires AllConvert(fields, env)
    ensures env.read.us(fields[13]).Ok?
    ensures env.read.integer(fields[14]).Ok? && env.read.integer(fields[15]).Ok? && env.read.integer(fields[16]).Ok?
  {
    var n := |fields|;
    assert FieldOf(n, WmInterval).Some? && FieldOf(n, WmHigh).Some?;
    assert FieldOf(n, WmMid).Some? && FieldOf(n, WmLow).Some?;
  }

  lemma OkSeventeenIf(fields: seq<string>, env: Collaborators)
    requires |fields| == 17
    requires AllConvert(fields, env)
    ensures DecodeFields(fields, env).Ok?
  {
    PatternReaders(fields, env);
    WeightReaders(fields, env);
    SeventeenWatermarkReaders(fields, env);
  }

  lemma FilledSeventeen(fields: seq<string>, env: Collaborators)
    requires |fields| == 17
    requires DecodeFields(fields, env).Ok?
    ensures FilledFrom(DecodeFields(fields, env).value, fields, env)
  {
    var s := DecodeFields(fields, env).value;
    forall slot | FieldOf(17, slot).Some?
      ensures FieldOf(17, slot).value < 17 && Convert(slot, fields[FieldOf(17, slot).value], env) == Ok(Get(s, slot))
    {
      match slot
      case MinSz => case MaxSz => case MinNr => case MaxNr => case MinAge => case MaxAge => case Action =>
      case QuotaTime => case QuotaSz => case QuotaReset => case WeightSz => case WeightNr => case WeightAge =>
      case Metric => case WmInterval => case WmHigh => case WmMid => case WmLow =>
    }
  }

  lemma OkEighteenOnly(fields: seq<string>, env: Collaborators)
    requires |fields| == 18
    requires DecodeFields(fields, env).Ok?
    ensures AllConvert(fields, env)
  {
  }

  lemma EighteenQuotaReaders(fields: seq<string>, env: Collaborators)
    requires |fields| == 18
    requires AllConvert(fields, env)
    ensures env.read.ms(fields[7]).Ok? && env.read.bytes(fields[8]).Ok? && env.read.ms(fields[9]).Ok?
    ensures env.read.integer(fields[10]).Ok? && env.read.integer(fields[11]).Ok? && env.read.integer(fields[12]).Ok?
  {
    var n := |fields|;
    assert FieldOf(n, QuotaTime).Some? && FieldOf(n, QuotaSz).Some? && FieldOf(n, QuotaReset).Some?;
    assert FieldOf(n, WeightSz).Some? && FieldOf(n, WeightNr).Some? && FieldOf(n, WeightAge).Some?;
  }

  lemma EighteenWatermarkReaders(fields: seq<string>, env: Collaborators)
    requires |fields| == 18
    requires AllConvert(fields, env)
    ensures env.read.us(fields[14]).Ok?
    ensures env.read.integer(fields[15]).Ok? && env.read.integer(fields[16]).Ok? && env.read.integer(fields[17]).Ok?
  {
    var n := |fields|;
    assert FieldOf(n, WmInterval).Some? && FieldOf(n, WmHigh).Some?;
    assert FieldOf(n, WmMid).Some? && FieldOf(n, WmLow).Some?;
  }

  lemma OkEighteenIf(fields: seq<string>, env: Collaborators)
    requires |fields| == 18
    requires AllConvert(fields, env)
    ensures DecodeFields(fields, env).Ok?
  {
    PatternReaders(fields, env);
    EighteenQuotaReaders(fields, env);
    EighteenWatermarkReaders(fields, env);
  }

  lemma FilledEighteen(fields: seq<string>, env: Collaborators)
    requires |fields| == 18
    requires DecodeFields(fields, env).Ok?
    ensures FilledFrom(DecodeFields(fields, env).value, fields, env)
  {
    var s := DecodeFields(fields, env).value;
    forall slot | FieldOf(18, slot).Some?
      ensures FieldOf(18, slot).value < 18 && Convert(slot, fields[FieldOf(18, slot).value], env) == Ok(Get(s, slot))
    {
      match slot
      case MinSz => case MaxSz => case MinNr => case MaxNr => case MinAge => case MaxAge => case Action =>
      case QuotaTime => case QuotaSz => case QuotaReset => case WeightSz => case WeightNr => case WeightAge =>
      case Metric => case WmInterval => case WmHigh => case WmMid => case WmLow =>
    }
  }

  /** The field decoder, whatever the accepted count: it succeeds exactly
      when every field the layout assigns converts for its slot, and then
      yields the default scheme with exactly those slots replaced. */
  lemma DecodeFieldsByTable(fields: seq<string>, env: Collaborators)
    requires Accepted(|fields|)
    ensures DecodeFields(fields, env).Ok? <==> AllConvert(fields, env)
    ensures DecodeFields(fields, env).Ok? ==> FilledFrom(DecodeFields(fields, env).value, fields, env)
  {
    if |fields| == 7 {
      OkSeven(fields, env);
    } else if |fields| == 9 {
      OkNine(fields, env);
      if DecodeFields(fields, env).Ok? { FilledNine(fields, env); }
    } else if |fields| == 12 {
      OkTwelve(fields, env);
      if DecodeFields(fields, env).Ok? { FilledTwelve(fields, env); }
    } else if |fields| == 17 {
      if DecodeFields(fields, env).Ok? {
        OkSeventeenOnly(fields, env);
        FilledSeventeen(fields, env);
      } else if AllConvert(fields, env) {
        OkSeventeenIf(fields, env);
      }
    } else {
      if DecodeFields(fields, env).Ok? {
        OkEighteenOnly(fields, env);
        FilledEighteen(fields, env);
      } else if AllConvert(fields, env) {
        OkEighteenIf(fields, env);
      }
    }
  }

  /** A line of an accepted field count decodes exactly when every field
      its layout assigns converts, and then into the default scheme with
      exactly those slots replaced; any other count is refused. */
  lemma DecodeLineByTable(line: string, env: Collaborators)
    ensures !Accepted(|Fields(line)|) ==> DecodeLine(line, env) == Err(WrongFieldCount(line))
    ensures Accepted(|Fields(line)|) ==>
      (DecodeLine(line, env).Ok? <==> AllConvert(Fields(line), env))
    ensures Accepted(|Fields(line)|) && DecodeLine(line, env).Ok? ==>
      FilledFrom(DecodeLine(line, env).value, Fields(line), env)
  {
    if Accepted(|Fields(line)|) {
      DecodeFieldsByTable(Fields(line), env);
    }
  }

  // ==================================================================
  // The table describes one scheme

  lemma PatternBySlots(s1: Scheme, s2: Scheme)
    requires forall slot :: Get(s1, slot) == Get(s2, slot)
    requires s1.pattern.nrAccessesUnit == s2.pattern.nrAccessesUnit
    requires s1.pattern.ageUnit == s2.pattern.ageUnit
    ensures s1.pattern == s2.pattern && s1.action == s2.action
  {
    assert Get(s1, MinSz) == Get(s2, MinSz) && Get(s1, MaxSz) == Get(s2, MaxSz);
    assert Get(s1, MinNr) == Get(s2, MinNr) && Get(s1, MaxNr) == Get(s2, MaxNr);
    assert Get(s1, MinAge) == Get(s2, MinAge) && Get(s1, MaxAge) == Get(s2, MaxAge);
    assert Get(s1, Action) == Get(s2, Action);
  }

  lemma QuotasBySlots(s1: Scheme, s2: Scheme)
    requires forall slot :: Get(s1, slot) == Get(s2, slot)
    ensures s1.quotas == s2.quotas
  {
    assert Get(s1, QuotaTime) == Get(s2, QuotaTime) && Get(s1, QuotaSz) == Get(s2, QuotaSz);
    assert Get(s1, QuotaReset) == Get(s2, QuotaReset) && Get(s1, WeightSz) == Get(s2, WeightSz);
    assert Get(s1, WeightNr) == Get(s2, WeightNr) && Get(s1, WeightAge) == Get(s2, WeightAge);
  }

  lemma WatermarksBySlots(s1: Scheme, s2: Scheme)
    requires forall slot :: Get(s1, slot) == Get(s2, slot)
    ensures s1.watermarks == s2.watermarks
  {
    assert Get(s1, Metric) == Get(s2, Metric) && Get(s1, WmInterval) == Get(s2, WmInterval);
    assert Get(s1, WmHigh) == Get(s2, WmHigh) && Get(s1, WmMid) == Get(s2, WmMid);
    assert Get(s1, WmLow) == Get(s2, WmLow);
  }

  /** Two schemes that agree on every slot, on both units, on the name and
      on the filters are the same scheme. */
  lemma SchemeBySlots(s1: Scheme, s2: Scheme)
    requires forall slot :: Get(s1, slot) == Get(s2, slot)
    requires s1.pattern.nrAccessesUnit == s2.pattern.nrAccessesUnit
    requires s1.pattern.ageUnit == s2.pattern.ageUnit
    requires s1.name == s2.name && s1.filters == s2.filters
    ensures s1 == s2
  {
    PatternBySlots(s1, s2);
    QuotasBySlots(s1, s2);
    WatermarksBySlots(s1, s2);
  }

  /** The table pins the decoded scheme down completely: at most one scheme
      is filled from a given line. */
  lemma FilledFromUnique(s1: Scheme, s2: Scheme, fields: seq<string>, env: Collaborators)
    requires Accepted(|fields|)
    requires FilledFrom(s1, fields, env) && FilledFrom(s2, fields, env)
    ensures s1 == s2
  {
    forall slot
      ensures Get(s1, slot) == Get(s2, slot)
    {
      if FieldOf(|fields|, slot).Some? {
        var i := FieldOf(|fields|, slot).value;
        assert Convert(slot, fields[i], env) == Ok(Get(s1, slot));
      }
    }
    SchemeBySlots(s1, s2);
  }

  /** The field-by-field layout and the slot-by-slot table are the same
      assignment: field `i` of a line of `n` fields fills `Layout(n)[i]`,
      and the slot the table sends to field `i` is that one. */
  lemma LayoutIsFieldOf(n: nat, i: nat)
    requires Accepted(n) && i < n
    ensures FieldOf(n, Layout(n)[i]) == Some(i)
  {
  }

  lemma FieldOfIsLayout(n: nat, slot: Slot)
    requires Accepted(n) && FieldOf(n, slot).Some?
    ensures FieldOf(n, slot).value < n && Layout(n)[FieldOf(n, slot).value] == slot
  {
  }

  /** Every layout begins with the access pattern and the action, and the
      layouts up to 17 fields each extend the previous one; the 18-field
      layout does not extend the 17-field one. */
  lemma LayoutsNest()
    ensures forall n :: Accepted(n) ==> Layout(n)[..7] == PATTERN_SLOTS
    ensures Layout(7) <= Layout(9) && Layout(9) <= Layout(12) && Layout(12) <= Layout(17)
    ensures !(Layout(17) <= Layout(18))
  {
    assert Layout(17)[7] != Layout(18)[7];
  }

  // ==================================================================
  // What the table says about particular attributes

  /** Fields 0 to 5 fill the access pattern through the byte, percent and
      microsecond readers, in percent and microsecond units, and the action
      is field 6 lowered, whatever the layout. */
  lemma PatternFromFirstFields(line: string, env: Collaborators)
    requires DecodeLine(line, env).Ok?
    ensures var f, p := Fields(line), DecodeLine(line, env).value.pattern;
      && |f| >= 7
      && env.read.bytes(f[0]) == Ok(p.minSzBytes) && env.read.bytes(f[1]) == Ok(p.maxSzBytes)
      && env.read.percent(f[2]) == Ok(p.minNrAccesses) && env.read.percent(f[3]) == Ok(p.maxNrAccesses)
      && env.read.us(f[4]) == Ok(p.minAge) && env.read.us(f[5]) == Ok(p.maxAge)
      && p.nrAccessesUnit == UnitPercent && p.ageUnit == UnitUsec
    ensures DecodeLine(line, env).value.action == Lower(Fields(line)[6])
  {
    var f, s := Fields(line), DecodeLine(line, env).value;
    DecodeLineByTable(line, env);
    var n := |f|;
    assert FieldOf(n, MinSz) == Some(0) && FieldOf(n, MaxSz) == Some(1);
    assert FieldOf(n, MinNr) == Some(2) && FieldOf(n, MaxNr) == Some(3);
    assert FieldOf(n, MinAge) == Some(4) && FieldOf(n, MaxAge) == Some(5);
    assert FieldOf(n, Action) == Some(6);
  }

  /** The quotas and the watermarks of a scheme filled from 7 fields are
      the default's. */
  lemma SevenFilledKeepsDefaults(s: Scheme, fields: seq<string>, env: Collaborators)
    requires |fields| == 7 && FilledFrom(s, fields, env)
    ensures s.quotas == env.defaultScheme.quotas && s.watermarks == env.defaultScheme.watermarks
  {
    var q := env.defaultScheme.quotas;
    assert s.quotas.timeMs == q.timeMs by { KeptSlot(s, fields, env, QuotaTime); }
    assert s.quotas.szBytes == q.szBytes by { KeptSlot(s, fields, env, QuotaSz); }
    assert s.quotas.resetIntervalMs == q.resetIntervalMs by { KeptSlot(s, fields, env, QuotaReset); }
    assert s.quotas.weightSzPermil == q.weightSzPermil by { KeptSlot(s, fields, env, WeightSz); }
    assert s.quotas.weightNrAccessesPermil == q.weightNrAccessesPermil by { KeptSlot(s, fields, env, WeightNr); }
    assert s.quotas.weightAgePermil == q.weightAgePermil by { KeptSlot(s, fields, env, WeightAge); }
    WatermarksKept(s, fields, env);
  }

  /** A slot the layout does not name keeps the default scheme's value. */
  lemma KeptSlot(s: Scheme, fields: seq<string>, env: Collaborators, slot: Slot)
    requires Accepted(|fields|) && FilledFrom(s, fields, env) && FieldOf(|fields|, slot).None?
    ensures Get(s, slot) == Get(env.defaultScheme, slot)
  {
  }

  /** Below 17 fields the watermarks are the default scheme's. */
  lemma WatermarksKept(s: Scheme, fields: seq<string>, env: Collaborators)
    requires Accepted(|fields|) && |fields| < 17 && FilledFrom(s, fields, env)
    ensures s.watermarks == env.defaultScheme.watermarks
  {
    var w := env.defaultScheme.watermarks;
    assert s.watermarks.metric == w.metric by { KeptSlot(s, fields, env, Metric); }
    assert s.watermarks.intervalUs == w.intervalUs by { KeptSlot(s, fields, env, WmInterval); }
    assert s.watermarks.highPermil == w.highPermil by { KeptSlot(s, fields, env, WmHigh); }
    assert s.watermarks.midPermil == w.midPermil by { KeptSlot(s, fields, env, WmMid); }
    assert s.watermarks.lowPermil == w.lowPermil by { KeptSlot(s, fields, env, WmLow); }
  }


  /** A 7-field line stops after the action: the quotas and the watermarks
      are the default scheme's. */
  lemma SevenKeepsDefaults(line: string, env: Collaborators)
    requires |Fields(line)| == 7 && DecodeLine(line, env).Ok?
    ensures DecodeLine(line, env).value.quotas == env.defaultScheme.quotas
    ensures DecodeLine(line, env).value.watermarks == env.defaultScheme.watermarks
  {
    DecodeLineByTable(line, env);
    SevenFilledKeepsDefaults(DecodeLine(line, env).value, Fields(line), env);
  }

  /** Below 18 fields the time quota is the default's; below 17 the
      watermarks are too. */
  lemma FilledKeepsTimeQuota(s: Scheme, fields: seq<string>, env: Collaborators)
    requires Accepted(|fields|) && FilledFrom(s, fields, env)
    ensures |fields| != 18 ==> s.quotas.timeMs == env.defaultScheme.quotas.timeMs
    ensures |fields| < 17 ==> s.watermarks == env.defaultScheme.watermarks
  {
    if |fields| != 18 {
      KeptSlot(s, fields, env, QuotaTime);
    }
    if |fields| < 17 {
      WatermarksKept(s, fields, env);
    }
  }


  /** Only the 18-field layout sets the time quota; the watermarks are set
      only at 17 and 18 fields. */
  lemma TimeQuotaOnlyAtEighteen(line: string, env: Collaborators)
    requires DecodeLine(line, env).Ok?
    ensures |Fields(line)| != 18 ==> DecodeLine(line, env).value.quotas.timeMs == env.defaultScheme.quotas.timeMs
    ensures |Fields(line)| < 17 ==> DecodeLine(line, env).value.watermarks == env.defaultScheme.watermarks
  {
    DecodeLineByTable(line, env);
    FilledKeepsTimeQuota(DecodeLine(line, env).value, Fields(line), env);
  }

  /** A line that has an accepted count but does not decode is reported
      with the one generic error, whichever field failed. */
  lemma FailedFieldIsGeneric(line: string, env: Collaborators)
    requires Accepted(|Fields(line)|) && !AllConvert(Fields(line), env)
    ensures DecodeLine(line, env) == Err(WrongInputField)
    ensures LineErrorMessage(DecodeLine(line, env).error) == "wrong input field"
  {
    DecodeLineByTable(line, env);
  }
}
