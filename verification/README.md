# damo scheme input, in Dafny

This project models the part of damo (the DAMON user-space tool) that turns
DAMON-based operation schemes ("DAMOS") written as text into policy records,
and the unit-aware value readers and writers those records are built with.

- **The single-line scheme grammar.** A line is split at whitespace into
  7, 9, 12, 17 or 18 fields. The field count alone selects one of five
  historical layouts, v0 to v4. The layout fills the scheme's access
  pattern (size, access frequency and age ranges), its action, its quotas
  and its watermarks, on top of a default scheme. Any other field count is
  refused with an error that lists the accepted counts. A field that does
  not convert is reported with the one generic error `wrong input field`.
- **The scheme document.** Comment lines (`#` after trimming) are dropped.
  When the rest is not a JSON scheme list, each line is stripped, blank
  lines are skipped, and the others are decoded in order. The first line
  that does not decode refuses the whole document.
- **The value readers and writers** of `_damo_fmt_str`:
  - `format_nr`: digit grouping;
  - `text_to_nr`: comma-tolerant reading of unsigned plain decimals;
  - `text_to_ns`, `text_to_us` and `text_to_ms`: multi-unit durations;
  - `format_time_ns_exact` and `format_time_ns`: exact and approximate duration rendering;
  - `text_to_percent`;
  - `text_to_bytes`: binary byte suffixes, truncation, and clamping at 2^64-1.

  Every fixture in `tests/unittest/test_fmt_str.py` is a lemma about the
  Dafny definitions. Elsewhere the definitions are this model's choice; the
  choices no fixture pins are listed under "## Left out".
  `_damo_fmt_str.py` itself is not part of this model.

Layout:

| file | module | contents |
|---|---|---|
| `wrappers.dfy` | `Wrappers` | `Option` and `Result` with `:-` propagation |
| `text.dfy` | `Text` | the Python string operations used: `split()`, `strip()`, `split('\n')`, `lower()`, `str(int)` |
| `damon.dfy` | `Damon` | the scheme record: access pattern, quotas, watermarks |
| `fmt_str.dfy` | `FmtStr` | the value readers and writers |
| `fmt_str_laws.dfy` | `FmtStrLaws` | round trips and general laws of the readers and writers |
| `fmt_str_fixtures.dfy` | `FmtStrFixtures` | one lemma per unit-test fixture |
| `schemes_input.dfy` | `SchemesInput` | the per-version helpers, the line decoder, comment stripping, the line fallback, the document |
| `schemes_laws.dfy` | `SchemesLaws` | the decoder against a field-to-slot table, and against the per-version helpers |
| `document_laws.dfy` | `DocumentLaws` | the error texts, comment stripping and the fallback's outcome |

Things outside the text grammar become parameters:

- the default scheme (`default_damos_scheme()`);
- the frequency reader for text without a `%` marker;
- the JSON attempt.

The line decoder is stated twice:

- as the source's inline branches (`DecodeFields`);
- as a table `FieldOf` that gives, for each field count, the field that fills each scheme attribute (`Slot`).

`FilledFrom` says that a scheme is the default with exactly the table's
slots replaced by their converted fields. The helpers `fields_to_v0_scheme`
to `fields_to_v4_scheme` are modelled as written (`FieldsToV0` to
`FieldsToV4`) and proved equal to the inline branches.

On one point of the document path the model follows the code rather than
the path's documented intent ("text that is not JSON is read line by
line"). The code falls through to the line grammar on any exception inside
the `try`, including a failure of the JSON-to-scheme conversion on text
that is valid JSON. In `SchemesToDamos` the JSON oracle returns `None` for
either failure.

## Model

| member | source | states |
|---|---|---|
| SchemesInput.DecodeLine | _damo_schemes_input.py:143-205 | The line is refused with the field-count error exactly when its field count is not 7, 9, 12, 17 or 18. Any other failure is the generic field error. |
| DocumentLaws.WrongCountRefused | _damo_schemes_input.py:145-149 | A line whose count is not in the expected list yields no scheme, only the field-count error naming the line. |
| DocumentLaws.WrongCountMessage | _damo_schemes_input.py:146-149 | The field-count error reads `expected [7, 9, 12, 17, 18] fields, but '<line>'`, with the list printed as Python prints it. |
| DocumentLaws.ExpectedLengthsText | _damo_schemes_input.py:146-148 | The expected-length list renders as `[7, 9, 12, 17, 18]`. |
| DocumentLaws.AcceptedIsExpected | _damo_schemes_input.py:146-147 | The accepted field counts are exactly the members of the expected-length list. |
| SchemesLaws.DecodeFieldsIsHelper | _damo_schemes_input.py:88-141 | For each accepted count, the inline branches compute the same error or scheme as the helper for that layout: 7 is v0, 9 v1, 12 v2, 17 v3 and 18 v4. |
| SchemesLaws.DecodeFieldsByTable | _damo_schemes_input.py:151-202 | The decoder succeeds exactly when every field the layout assigns converts. The result is then the default scheme with exactly those slots filled from their fields. |
| SchemesLaws.DecodeLineByTable | _damo_schemes_input.py:143-204 | A line of an accepted count decodes exactly when all its assigned fields convert, and then fills exactly the table's slots. Any other count is refused. |
| SchemesLaws.FilledFromUnique | _damo_schemes_input.py:151-202 | The table determines the decoded scheme completely: at most one scheme is filled from a given line. |
| SchemesLaws.LayoutIsFieldOf | _damo_schemes_input.py:151-202 | The field-by-field layout and the slot table are the same assignment: field i fills the slot the table sends to field i. |
| SchemesLaws.FieldOfIsLayout | _damo_schemes_input.py:151-202 | Every slot the table assigns maps to a field within the line, and that field's layout entry is the slot. |
| SchemesLaws.LayoutsNest | _damo_schemes_input.py:167-202 | Every layout starts with the six pattern fields and the action. Layouts up to 17 fields each extend the previous one. The 18-field layout does not extend the 17-field one. |
| SchemesLaws.PatternFromFirstFields | _damo_schemes_input.py:152-162 | In a decoded line, fields 0-5 give the size, frequency and age ranges through the byte, percent and microsecond readers, in percent and microsecond units. The action is field 6 lowered. |
| SchemesLaws.SevenKeepsDefaults | _damo_schemes_input.py:163-165 | A 7-field line keeps the default quotas and watermarks. |
| SchemesLaws.SevenFilledKeepsDefaults | _damo_schemes_input.py:163-165 | A scheme filled from 7 fields has the default quotas and watermarks. |
| SchemesLaws.TimeQuotaOnlyAtEighteen | _damo_schemes_input.py:167-202 | Below 18 fields the time quota is the default's. Below 17 fields the watermarks are the default's. |
| SchemesLaws.FilledKeepsTimeQuota | _damo_schemes_input.py:167-202 | The same two facts for any scheme filled from the table. |
| SchemesLaws.FailedFieldIsGeneric | _damo_schemes_input.py:203-204 | A line with an accepted count whose fields do not all convert gets the error `wrong input field`, whichever field failed. |
| SchemesLaws.SchemeBySlots | _damo_schemes_input.py:152-202 | Two schemes that agree on every slot, both units, the name and the filters are equal, so the slot table covers everything the grammar sets. |
| SchemesInput.LinesExceptComments | _damo_schemes_input.py:207-209 | No line it returns is a comment. |
| DocumentLaws.SchemeLinesOfLines | _damo_schemes_input.py:207-209 | On a text made of lines, comment stripping keeps exactly the non-comment lines, in order, blank lines included. |
| DocumentLaws.SchemeLinesOfLine | _damo_schemes_input.py:208-209 | A single line survives exactly when its stripped form does not start with `#`. |
| DocumentLaws.SchemeLinesJoin | _damo_schemes_input.py:208-209 | Comment stripping distributes over newline concatenation. |
| DocumentLaws.CandidatesAreSchemeLines | _damo_schemes_input.py:226-230 | Every line given to the line decoder is non-empty, already stripped, and not a comment. |
| SchemesInput.CandidatesAppend | _damo_schemes_input.py:226-229 | Stripping and skipping blank lines works line by line: the candidates of a concatenation are the concatenation of the candidates. |
| SchemesInput.DecodeLines | _damo_schemes_input.py:225-236 | The loop returns one scheme per non-blank stripped line, in order, each that line's decode. Otherwise it returns the error of the first line that does not decode, all earlier lines having decoded. |
| DocumentLaws.LineByLineOk | _damo_schemes_input.py:225-236 | The fallback succeeds exactly when every candidate line decodes, and then returns as many schemes as there are candidate lines. |
| DocumentLaws.LineByLineUnique | _damo_schemes_input.py:225-236 | The fallback's outcome is unique: two results satisfying its description are equal. |
| SchemesInput.SchemesToDamos | _damo_schemes_input.py:211-236 | When the JSON attempt on the comment-free lines succeeds, its schemes are returned. Otherwise the result is the line fallback's, with a line error wrapped as the document's error. |
| FmtStr.FormatNr | tests/unittest/test_fmt_str.py:24-27 | Removing the commas from the result gives the decimal digits of n. The result starts with a digit, and commas stand exactly every four characters counted from the right, so they fall only between groups of three digits. |
| FmtStrFixtures.FormatNrFixtures | tests/unittest/test_fmt_str.py:24-27 | 123, 1234 and 1234567 render as `123`, `1,234` and `1,234,567`. |
| FmtStrLaws.FormatNrRoundTrip | tests/unittest/test_fmt_str.py:24-36 | Reading a grouped number back gives the integer that was formatted. |
| FmtStr.TextToNr | tests/unittest/test_fmt_str.py:29-36 | A successful read is an integer exactly when the text has no `.`. |
| FmtStrLaws.TextToNrIgnoresCommas | tests/unittest/test_fmt_str.py:29-36 | Dropping the commas first changes neither whether the text reads nor the value read. |
| FmtStrLaws.DecimalRead | tests/unittest/test_fmt_str.py:35 | `a.b` with digit strings a (non-empty) and b reads as the decimal fraction a.b, exactly. |
| FmtStrFixtures.TextToNrIntFixtures | tests/unittest/test_fmt_str.py:33-36 | `12`, `1,234` and `1,234,567` read as the integers 12, 1234 and 1234567. |
| FmtStrFixtures.TextToNrFractionFixture | tests/unittest/test_fmt_str.py:35 | `1,234.567` reads as the fraction 1234.567. |
| FmtStrLaws.IntRoundTrip | _damo_schemes_input.py:111-113 | Python's `int()` reads back every integer `str()` prints, as the weight and watermark fields use it. |
| FmtStrLaws.ExactRoundTrip | tests/unittest/test_fmt_str.py:38-95 | The exact rendering of n nanoseconds reads back as n ns, n/1000 us and n/1000000 ms. |
| FmtStrLaws.ExactPartsCanonical | tests/unittest/test_fmt_str.py:49-68 | The exact rendering's components add up to the duration, use strictly decreasing units, each carry a nonzero count unless the duration is zero, and each outweigh everything after them. |
| FmtStrLaws.BreakdownCanonical | tests/unittest/test_fmt_str.py:49-68 | A greedy breakdown over decreasing units ending in ns is canonical: descending units, nonzero counts, each component less than the unit above it. |
| FmtStrLaws.BreakdownSum | tests/unittest/test_fmt_str.py:49-68 | The greedy breakdown's components add up to the duration broken down. |
| FmtStrLaws.ExactPartsDigits | tests/unittest/test_fmt_str.py:49-68 | A duration of d days, h hours, m minutes, s seconds, ms, us and ns (each below its carry) renders as those counts, largest unit first, skipping zeros. |
| FmtStrLaws.ApproxReadBack | tests/unittest/test_fmt_str.py:49-68 | The approximate rendering reads back as a duration within 1/2000 of the original, relative. |
| FmtStrLaws.LastPartValue | tests/unittest/test_fmt_str.py:50-60 | The last component of the approximate form is exact when its unit divides the value, and otherwise within half a thousandth of the unit. |
| FmtStrLaws.ApproxHasNoDays | tests/unittest/test_fmt_str.py:64-68 | The approximate rendering never contains a `d` field: days are shown as hours. |
| FmtStr.ApproxParts | tests/unittest/test_fmt_str.py:49-68 | The approximate form has at least one component and never uses days. Units strictly decrease. All components but the last are whole numbers, and the last may carry three decimals. |
| FmtStrLaws.ReadBack | tests/unittest/test_fmt_str.py:70-95 | Any rendered sequence of (amount, unit) parts reads back as its total, truncated to the target unit. |
| FmtStr.TextToTime | tests/unittest/test_fmt_str.py:70-95 | A read that is not `min`, `max` or a bare number sums the (number, unit) pairs and truncates the total to whole target units. |
| FmtStrLaws.BareNumberInTargetUnit | tests/unittest/test_fmt_str.py:70-95 | A bare number is taken in the target unit. |
| FmtStrLaws.UnitNameRead | tests/unittest/test_fmt_str.py:70-95 | Every unit's name reads back as that unit. |
| FmtStrFixtures.TimeBareFixtures | tests/unittest/test_fmt_str.py:74 | `1` is 1 ns. |
| FmtStrFixtures.TimeOneNsFixture | tests/unittest/test_fmt_str.py:75 | `1 ns` is 1 ns. |
| FmtStrFixtures.TimeMaxFixtures | tests/unittest/test_fmt_str.py:70-95 | `max` is ulong_max for ns, us and ms. |
| FmtStrFixtures.TimeOneUsFixture | tests/unittest/test_fmt_str.py:80 | `1 us` is 1 us. |
| FmtStrFixtures.TimeUsFixture | tests/unittest/test_fmt_str.py:81 | `1234 us` is 1234 us. |
| FmtStrFixtures.TimeGroupedUsFixture | tests/unittest/test_fmt_str.py:82 | `1,234 us` is 1234 us. |
| FmtStrFixtures.TimeAbuttedFixture | tests/unittest/test_fmt_str.py:83 | `1234us`, with the unit abutting the number, is 1234 us. |
| FmtStrFixtures.TimeMsInUsFixture | tests/unittest/test_fmt_str.py:84 | `1 ms` is 1000 us. |
| FmtStrFixtures.TimeMinuteSecondFixture | tests/unittest/test_fmt_str.py:85 | `1 m 2 s` is 62000000 us. |
| FmtStrFixtures.TimeHourFixture | tests/unittest/test_fmt_str.py:86 | `2 h 1 m 2 s` is 7262000000 us. |
| FmtStrFixtures.TimeDayFixture | tests/unittest/test_fmt_str.py:87-88 | `3 d 2 h 1 m 2 s` is three days plus 7262 s, in us. |
| FmtStrFixtures.TimeBareUsFixture | tests/unittest/test_fmt_str.py:89 | `134` is 134 us. |
| FmtStrFixtures.TimeBareMsFixture | tests/unittest/test_fmt_str.py:94 | `134` is 134 ms. |
| FmtStrFixtures.TimeNanosRenderFixture | tests/unittest/test_fmt_str.py:49 | 123 ns renders as `123 ns` both ways. |
| FmtStrFixtures.TimeMicrosNanosRenderFixture | tests/unittest/test_fmt_str.py:50 | 123456 ns renders as `123 us 456 ns` and `123.456 us`. |
| FmtStrFixtures.TimeMicrosRenderFixture | tests/unittest/test_fmt_str.py:51 | 123000 ns renders as `123 us` both ways. |
| FmtStrFixtures.TimeMillisMicrosRenderFixture | tests/unittest/test_fmt_str.py:52 | 123456789 ns renders as `123 ms 456 us 789 ns` and `123.457 ms`. |
| FmtStrFixtures.TimeMillisRenderFixture | tests/unittest/test_fmt_str.py:53 | 123000000 ns renders as `123 ms` both ways. |
| FmtStrFixtures.TimeMinutesFractionRenderFixture | tests/unittest/test_fmt_str.py:54-55 | 123456789123 ns renders as `2 m 3 s 456 ms 789 us 123 ns` and `2 m 3.457 s`. |
| FmtStrFixtures.TimeMinutesSecondsRenderFixture | tests/unittest/test_fmt_str.py:56 | 123 s renders as `2 m 3 s` both ways. |
| FmtStrFixtures.TimeOneMinuteRenderFixture | tests/unittest/test_fmt_str.py:57 | One minute renders as `1 m` both ways. |
| FmtStrFixtures.TimeMinuteSecondsRenderFixture | tests/unittest/test_fmt_str.py:58 | 119 s renders as `1 m 59 s` both ways. |
| FmtStrFixtures.TimeMinuteMillisRenderFixture | tests/unittest/test_fmt_str.py:59-60 | 119.123 s renders as `1 m 59 s 123 ms` and `1 m 59.123 s`. |
| FmtStrFixtures.TimeHoursMillisRenderFixture | tests/unittest/test_fmt_str.py:61-62 | 2 h 1 m 59.123 s renders as `2 h 1 m 59 s 123 ms` and `2 h 1 m 59.123 s`. |
| FmtStrFixtures.TimeTwoHoursRenderFixture | tests/unittest/test_fmt_str.py:63 | Two hours render as `2 h` both ways. |
| FmtStrFixtures.TimeDaysMillisRenderFixture | tests/unittest/test_fmt_str.py:64-66 | 3 d 2 h 1 m 59.123 s renders as `3 d 2 h 1 m 59 s 123 ms` and `74 h 1 m 59.123 s`. |
| FmtStrFixtures.TimeDaysHoursRenderFixture | tests/unittest/test_fmt_str.py:67 | 3 d 2 h renders as `3 d 2 h` and `74 h`. |
| FmtStrFixtures.TimeManyDaysRenderFixture | tests/unittest/test_fmt_str.py:68 | 1234 d 2 h renders as `1,234 d 2 h` and `29618 h`. |
| FmtStr.TextToPercent | tests/unittest/test_fmt_str.py:97-103 | Text ending in `%` reads as a non-negative number. Other text goes to the unmodelled reader. |
| FmtStrLaws.PercentIgnoresCommas | tests/unittest/test_fmt_str.py:102-103 | Commas anywhere before the `%` change nothing. |
| FmtStrLaws.PercentSpaceBeforeMarker | tests/unittest/test_fmt_str.py:100-101 | A space before the `%` changes nothing. |
| FmtStrLaws.PercentOfGrouped | tests/unittest/test_fmt_str.py:97-103 | A grouped integer followed by `%` reads as that integer. |
| FmtStrFixtures.PercentTenFixture | tests/unittest/test_fmt_str.py:99 | `10%` is 10. |
| FmtStrFixtures.PercentFractionFixture | tests/unittest/test_fmt_str.py:100 | `12.34%` is 12.34. |
| FmtStrFixtures.PercentSpacedFixture | tests/unittest/test_fmt_str.py:101 | `12.34 %` is 12.34. |
| FmtStrFixtures.PercentGroupedFixture | tests/unittest/test_fmt_str.py:102 | `1,234.567 %` is 1234.567. |
| FmtStrFixtures.PercentCommaInFractionFixture | tests/unittest/test_fmt_str.py:103 | `1,234.567,89 %` is 1234.56789. |
| FmtStr.TextToBytes | tests/unittest/test_fmt_str.py:105-125 | Every byte count read is at most 2^64-1. |
| FmtStrLaws.ByteUnitSynonyms | tests/unittest/test_fmt_str.py:110-122 | A letter suffix K, M, G, T, P or E reads the same as its IEC spelling KiB ... EiB. |
| FmtStrLaws.BytesOfUnit | tests/unittest/test_fmt_str.py:108-122 | `n <unit>` is n times the unit's power of 1024, clamped to 2^64-1. |
| FmtStrLaws.BytesOfGrouped | tests/unittest/test_fmt_str.py:108 | A grouped integer without a suffix is that many bytes, clamped. |
| FmtStrLaws.ScaledBytesOfInt | tests/unittest/test_fmt_str.py:108-122 | An integer amount with a known or empty unit is the exact product, clamped. |
| FmtStrFixtures.BytesPlainFixture | tests/unittest/test_fmt_str.py:108 | `123` is 123 bytes. |
| FmtStrFixtures.BytesSuffixBFixture | tests/unittest/test_fmt_str.py:109 | `123 B` is 123 bytes. |
| FmtStrFixtures.TwoKibibytes | tests/unittest/test_fmt_str.py:110-111 | `2 K` and `2 KiB` are 2048 bytes. |
| FmtStrFixtures.TwoMebibytes | tests/unittest/test_fmt_str.py:112-113 | `2 M` and `2 MiB` are 2 MiB. |
| FmtStrFixtures.TwoGibibytes | tests/unittest/test_fmt_str.py:114-118 | `2 G` and `2 GiB` are 2 GiB. |
| FmtStrFixtures.TwoTebibytes | tests/unittest/test_fmt_str.py:119-120 | `2 T` and `2 TiB` are 2 TiB. |
| FmtStrFixtures.TwoPebibytes | tests/unittest/test_fmt_str.py:121-122 | `2 P` and `2 PiB` are 2 PiB. |
| FmtStrFixtures.BytesFractionGFixture | tests/unittest/test_fmt_str.py:115 | `1,234.457 G` is the integer part of 1234.457 * 2^30. |
| FmtStrFixtures.BytesFractionGiBFixture | tests/unittest/test_fmt_str.py:116 | `1,234.457 GiB` is the same. |
| FmtStrFixtures.BytesTruncateFixture | tests/unittest/test_fmt_str.py:117 | `1,234.457` truncates to 1234 bytes. |
| FmtStrFixtures.BytesTwoPointZeroPFixture | tests/unittest/test_fmt_str.py:123 | `2.0 PiB` is 2 PiB. |
| FmtStrFixtures.BytesClampFixture | tests/unittest/test_fmt_str.py:124 | `16384.000 PiB`, 2^64 bytes, clamps to 2^64-1 instead of wrapping. |
| FmtStrFixtures.BytesTwoPointZeroEFixture | tests/unittest/test_fmt_str.py:125 | `2.0 EiB` is 2 EiB. |

## Left out

- Reading the scheme document from a file when the argument names one (`_damo_schemes_input.py:212-214`). This is filesystem I/O; the model starts from the document's text.
- `json.loads` and `_damon.kvpairs_to_Damos` (`_damo_schemes_input.py:218-223`). These are a foreign parser and a converter that is not part of this model. They appear as the oracle parameter of `SchemesToDamos`, and `None` stands for any exception either raises.
- `print` and `exit(1)` on a line that does not decode (`_damo_schemes_input.py:231-234`). These are process plumbing. `SchemesToDamos` returns the error instead; `DocErrorMessage` is the text that would be printed.
- The `name` argument of the line decoder (`_damo_schemes_input.py:143`). The decoder never uses it.
- The `unsupported version of single line scheme` return (`_damo_schemes_input.py:205`). It cannot be reached once the count check passes, and `DecodeFields` has no such branch.
- `_damon.default_damos_scheme()`. That module is not part of this model, so the default scheme is the `defaultScheme` parameter.
- `damo_adjust.py`. It is argument parsing and result-file I/O through a module that is not part of this model.
- FmtStr.TextToPercent: text without a `%` marker (a bare number, `min`, `max`) is read by the parameter `percentOther`. No fixture in `tests/unittest/test_fmt_str.py` covers such text, and `_damo_fmt_str.py` is not part of this model.
- FmtStr.TextToBytes: values are exact decimal fractions, not binary floats. `1,234.457 G` is therefore floor(1234.457 * 2^30) computed exactly, not `int()` of a float product. For this fixture the two agree, but bit-exact float agreement is not claimed.
- FmtStr.TextToTime: results are not clamped to 2^64-1, and `min` reads as 0. No fixture shows either.
- FmtStr.ApproxParts: the three decimals of the last component are rounded half up. Python's `%.3f` on a binary float may round a tie the other way.
- FmtStr.ApproxParts: from one minute up, a zero hour or minute count is left out, so 3605 s renders `1 h 5 s` (FmtStrLaws.ZeroMinuteLeftOut). This is a choice of this model; no fixture has a zero component between nonzero ones.
- FmtStr.ApproxParts: from one minute up, any remainder below a minute is shown in seconds, so 60.005 s renders `1 m 0.005 s` (FmtStrLaws.SubsecondAfterMinutes) and 60.0000004 s renders `1 m 0.000 s`. No fixture has a remainder below one second after whole minutes.
- FmtStr.SumPairs: (number, unit) pairs are summed in any order and a unit may repeat, so `2 s 1 m` reads as 62 s (FmtStrLaws.PairsInAnyOrder) and `1 s 1 s` reads as 2 s. Every fixture lists distinct units, largest first.
- FmtStr.TextToTime: a bare decimal (`1.5`) is taken in the target unit and truncated. The bare-number fixtures are all integers.
- FmtStr.FormatTimeNs and FmtStr.FormatTimeNsExact model only `machine_friendly=False`, the form the fixtures use.
- FmtStr.FormatNr models only `machine_friendly=False`.
- Text.Strip, Text.Fields and Text.Lower treat only space and tab to carriage return as whitespace, and only ASCII letters as cased. Python's `strip()` and `split()` also treat the ASCII separators `\x1c` to `\x1f` and Unicode whitespace as whitespace, and `lower()` also lowers non-ASCII letters.
- FmtStr.TextToNr: reads only unsigned plain decimals, text made of digits and '.' once commas and surrounding whitespace are gone, as FmtStrLaws.ReadableIsPlainDecimal states. A sign (`-5`), an exponent (`1.5e3`), `inf`, `nan` and '_' between digits are refused, although Python's `int()` and `float()` accept them. Every fixture is an unsigned plain decimal, and `_damo_fmt_str.py` is not part of this model, so nothing fixes how such text reads there. The same narrowing reaches FmtStr.TextToPercent, FmtStr.TextToBytes and bare numbers in FmtStr.TextToTime.
- FmtStr.TextToInt reads an optional sign and ASCII digits. Python's `int()` also accepts underscores between digits and non-ASCII digits.
- Error texts of the value readers (`FmtError`) are not modelled. The line decoder discards them and reports `wrong input field`.
