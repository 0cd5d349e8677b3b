/** What the document path promises: the error texts, comment stripping,
    and the line fallback's outcome. */
module DocumentLaws {
  import opened Wrappers
  import opened Text
  import opened FmtStr
  import opened Damon
  import opened SchemesInput

  // ==================================================================
  // The field-count check

  /** The field counts the decoder accepts are exactly the listed ones. */
  lemma AcceptedIsExpected(n: nat)
    ensures Accepted(n) <==> n in EXPECTED_LENGTHS
  {
  }

  lemma CountsText()
    ensures IntToText(7) == "7" && IntToText(9) == "9"
    ensures IntToText(12) == "12" && IntToText(17) == "17" && IntToText(18) == "18"
  {
    assert NatToDigits(1) == "1";
    assert NatToDigits(12) == NatToDigits(1) + [DigitChar(2)];
    assert NatToDigits(17) == NatToDigits(1) + [DigitChar(7)];
    assert NatToDigits(18) == NatToDigits(1) + [DigitChar(8)];
  }

  lemma JoinCounts()
    ensures JoinWith(["7", "9", "12", "17", "18"], ", ") == "7, 9, 12, 17, 18"
  {
    var ts: seq<string> := ["7", "9", "12", "17", "18"];
    assert JoinWith(ts[4..], ", ") == "18" by {
      assert ts[4..] == ["18"];
    }
    assert JoinWith(ts[3..], ", ") == "17, 18" by {
      assert ts[3..][1..] == ts[4..];
    }
    assert JoinWith(ts[2..], ", ") == "12, 17, 18" by {
      assert ts[2..][1..] == ts[3..];
    }
    assert JoinWith(ts[1..], ", ") == "9, 12, 17, 18" by {
      assert ts[1..][1..] == ts[2..];
    }
  }

  /** The list in the field-count error renders as Python prints it. */
  lemma ExpectedLengthsText()
    ensures ListText(EXPECTED_LENGTHS) == "[7, 9, 12, 17, 18]"
  {
    var ts := seq(|EXPECTED_LENGTHS|, i requires 0 <= i < |EXPECTED_LENGTHS| => IntToText(EXPECTED_LENGTHS[i]));
    CountsText();
    assert ts == ["7", "9", "12", "17", "18"];
    JoinCounts();
  }

  /** A line whose field count is not accepted yields no scheme. */
  lemma WrongCountRefused(line: string, env: Collaborators)
    requires !(|Fields(line)| in EXPECTED_LENGTHS)
    ensures DecodeLine(line, env) == Err(WrongFieldCount(line))
  {
    AcceptedIsExpected(|Fields(line)|);
  }

  /** The field-count error names the accepted counts and the line. */
  lemma WrongCountMessage(line: string)
    ensures LineErrorMessage(WrongFieldCount(line)) == "expected [7, 9, 12, 17, 18] fields, but '" + line + "'"
  {
    ExpectedLengthsText();
    var list := ListText(EXPECTED_LENGTHS);
    assert LineErrorMessage(WrongFieldCount(line)) == "expected " + list + " fields, but '" + line + "'";
  }

  // ==================================================================
  // Comment stripping

  /** Comment stripping works piece by piece across a newline. */
  lemma SchemeLinesJoin(a: string, b: string)
    ensures SchemeLines(a + "\n" + b) == SchemeLines(a) + SchemeLines(b)
  {
    SplitJoin(a, b, '\n');
    FilterAppend(NotComment, Split(a, '\n'), Split(b, '\n'));
  }

  /** On a text made of lines, comment stripping keeps exactly the lines
      that are not comments, in their order, blank lines included. */
  lemma SchemeLinesOfLines(ls: seq<string>)
    requires |ls| >= 1
    requires forall i :: 0 <= i < |ls| ==> '\n' !in ls[i]
    ensures SchemeLines(JoinWith(ls, "\n")) == Filter(NotComment, ls)
  {
    SplitOfJoin(ls, '\n');
  }

  /** A single line survives comment stripping exactly when it is not a
      comment. */
  lemma SchemeLinesOfLine(line: string)
    requires '\n' !in line
    ensures SchemeLines(line) == if IsComment(line) then [] else [line]
  {
    SchemeLinesOfLines([line]);
  }

  /** The line decoder never sees a comment, a blank line, or surrounding
      whitespace: every candidate is a stripped non-comment line. */
  lemma CandidatesAreSchemeLines(txt: string)
    ensures forall c :: c in Candidates(LinesExceptComments(txt)) ==>
      c != "" && Strip(c) == c && !StartsWith(c, "#")
  {
    var lines := LinesExceptComments(txt);
    var stripped := seq(|lines|, i requires 0 <= i < |lines| => Strip(lines[i]));
    forall c | c in Candidates(lines)
      ensures c != "" && Strip(c) == c && !StartsWith(c, "#")
    {
      assert c in stripped;
      var i :| 0 <= i < |lines| && stripped[i] == c;
      assert NotComment(lines[i]);
      StripIdempotent(lines[i]);
    }
  }

  // ==================================================================
  // The line fallback

  /** Decoding line by line has one outcome: the predicate describes a
      single result. */
  lemma LineByLineUnique(cands: seq<string>, env: Collaborators, r1: Result<seq<Scheme>, LineError>,
                         r2: Result<seq<Scheme>, LineError>)
    requires LineByLine(cands, env, r1) && LineByLine(cands, env, r2)
    ensures r1 == r2
  {
    match r1 {
      case Ok(s1) =>
        match r2 {
          case Ok(s2) =>
            assert DecodesAll(cands, env, s1) && DecodesAll(cands, env, s2);
            forall i | 0 <= i < |s1|
              ensures s1[i] == s2[i]
            {
              assert Ok(s1[i]) == DecodeLine(cands[i], env) == Ok(s2[i]);
            }
            assert s1 == s2;
          case Err(e2) =>
            assert false;
        }
      case Err(e1) =>
        var k1 :| 0 <= k1 < |cands| && DecodeLine(cands[k1], env) == Err(e1)
          && forall j :: 0 <= j < k1 ==> DecodeLine(cands[j], env).Ok?;
        match r2 {
          case Ok(s2) =>
            assert false;
          case Err(e2) =>
            var k2 :| 0 <= k2 < |cands| && DecodeLine(cands[k2], env) == Err(e2)
              && forall j :: 0 <= j < k2 ==> DecodeLine(cands[j], env).Ok?;
            if k1 < k2 {
              assert false;
            } else if k2 < k1 {
              assert false;
            }
        }
    }
  }

  /** The fallback succeeds exactly when every candidate line decodes, and
      then returns one scheme per candidate line. */
  lemma LineByLineOk(cands: seq<string>, env: Collaborators, r: Result<seq<Scheme>, LineError>)
    requires LineByLine(cands, env, r)
    ensures r.Ok? <==> forall i :: 0 <= i < |cands| ==> DecodeLine(cands[i], env).Ok?
    ensures r.Ok? ==> |r.value| == |cands|
  {
    if r.Err? {
      var k :| 0 <= k < |cands| && DecodeLine(cands[k], env) == Err(r.error);
    }
  }
}
