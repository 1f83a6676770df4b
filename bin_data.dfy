/** The transcript side of the age-binning tools: reading CHAT "years;months"
    ages, picking the speaker fields out of @ID header lines, collecting the
    target-child ids of a language's transcripts, and building the CLAN
    `freq` command that counts the pronouns of those children. */
module BinData {
  import opened PyText

  // ---------------------------------------------------------------------
  // Ages

  /** convert_age: a CHAT age "Y;M" as a number of months. A missing year or
      month segment counts as 0, a fractional month is rounded half to even,
      more than one ';' gives no value (Ok(None)), and a segment that is not a
      number raises ValueError, as int() and float() do. */
  function ConvertAge(age: string): (r: Result<Option<int>>)
    ensures r.Raise? ==> r.error == ValueError
  {
    AgeOfSegments(Split(age, ';'))
  }

  /** convert_age gives no value exactly when the text holds two or more ';'. */
  lemma {:induction false} ConvertAgeNone(age: string)
    ensures ConvertAge(age) == Ok(None) <==> multiset(age)[';'] >= 2
  {
    SplitCount(age, ';');
  }

  /** convert_age once the text is split at ';': one segment is the year,
      two are the year and the month, more give None. */
  function AgeOfSegments(parts: seq<string>): (r: Result<Option<int>>)
    requires |parts| >= 1
    ensures r == Ok(None) <==> |parts| >= 3
    ensures r.Raise? ==> r.error == ValueError
  {
    if |parts| == 1 then
      match IntOf(parts[0])
      case Raise(e) => Raise(e)
      case Ok(year) => Ok(Some(year * 12))
    else if |parts| == 2 then
      match YearSegment(parts[0])
      case Raise(e) => Raise(e)
      case Ok(year) =>
        match MonthSegment(parts[1])
        case Raise(e) => Raise(e)
        case Ok(month) => Ok(Some(year * 12 + month))
    else
      Ok(None)
  }

  /** The year before a ';': int() of it, or 0 when it is empty. */
  function YearSegment(segment: string): Result<int> {
    if segment == "" then Ok(0) else IntOf(segment)
  }

  /** The month after a ';': round(float()) of it, or 0 when it is empty. */
  function MonthSegment(segment: string): Result<int> {
    if segment == "" then Ok(0) else RoundedNumber(segment)
  }

  /** Two segments that read as numbers give years * 12 + months. */
  lemma {:induction false} TwoSegmentAge(years: string, months: string, y: int, m: int)
    requires YearSegment(years) == Ok(y) && MonthSegment(months) == Ok(m)
    ensures AgeOfSegments([years, months]) == Ok(Some(12 * y + m))
  {
  }

  /** A segment of plain digits reads as its own value, both for int() and
      for round(float()); an empty one reads as 0. */
  lemma {:induction false} DigitSegmentValue(s: string)
    requires AllDigits(s)
    ensures YearSegment(s) == Ok(DigitsValue(s))
    ensures MonthSegment(s) == Ok(DigitsValue(s))
    ensures |s| > 0 ==> IntOf(s) == Ok(DigitsValue(s))
  {
    if |s| > 0 {
      DigitsAreNoSeparator(s, '.');
      SplitSeparatorFree(s, '.');
      DigitLiteral(s);
      ParseIntDigits(s);
      assert ParseDecimal(s) == Some(Decimal(DigitsValue(s), 0));
      assert RoundHalfEven(DigitsValue(s), 1) == DigitsValue(s);
    }
  }

  /** An age with one ';' between two segments that read as numbers y and m
      is y * 12 + m months. */
  lemma {:induction false} AgeFromSegments(age: string, years: string, months: string, y: int, m: int)
    requires ';' !in years && ';' !in months
    requires age == years + ";" + months
    requires YearSegment(years) == Ok(y) && MonthSegment(months) == Ok(m)
    ensures ConvertAge(age) == Ok(Some(12 * y + m))
  {
    SplitTwo(years, ';', months);
    TwoSegmentAge(years, months, y, m);
  }

  /** Whole-number ages: years * 12 + months, an empty segment reading as 0
      ("4;6" is 54, ";8" is 8, ";" is 0). */
  lemma {:induction false} WholeMonthAge(years: string, months: string)
    requires AllDigits(years) && AllDigits(months)
    ensures ConvertAge(years + ";" + months) == Ok(Some(12 * DigitsValue(years) + DigitsValue(months)))
  {
    WholeAge(years + ";" + months, years, months, DigitsValue(years), DigitsValue(months));
  }

  /** WholeMonthAge for an age text and digit values given by name. */
  lemma {:induction false} WholeAge(age: string, years: string, months: string, y: int, m: int)
    requires age == years + ";" + months
    requires AllDigits(years) && AllDigits(months)
    requires y == DigitsValue(years) && m == DigitsValue(months)
    ensures ConvertAge(age) == Ok(Some(12 * y + m))
  {
    assert ';' !in years && ';' !in months by {
      DigitsAreNoSeparator(years, ';');
      DigitsAreNoSeparator(months, ';');
    }
    assert YearSegment(years) == Ok(y) by { DigitSegmentValue(years); }
    assert MonthSegment(months) == Ok(m) by { DigitSegmentValue(months); }
    AgeFromSegments(age, years, months, y, m);
  }

  /** An age with the year only ("3" is 36). */
  lemma {:induction false} YearOnlyAge(years: string)
    requires AllDigits(years) && |years| > 0
    ensures ConvertAge(years) == Ok(Some(12 * DigitsValue(years)))
  {
    YearAge(years, DigitsValue(years));
  }

  lemma {:induction false} YearAge(years: string, y: int)
    requires AllDigits(years) && |years| > 0 && y == DigitsValue(years)
    ensures ConvertAge(years) == Ok(Some(12 * y))
  {
    assert Split(years, ';') == [years] by {
      DigitsAreNoSeparator(years, ';');
      SplitSeparatorFree(years, ';');
    }
    assert AgeOfSegments([years]) == Ok(Some(12 * y)) by {
      assert IntOf(years) == Ok(y) by { DigitSegmentValue(years); }
    }
  }

  /** A fractional month "W.F" is the exact decimal WF / 10^|F|, rounded to
      the nearest whole month with an exact half going to the even month. */
  lemma {:induction false} FractionalMonthAge(years: string, whole: string, fraction: string)
    requires AllDigits(years) && AllDigits(whole) && AllDigits(fraction)
    requires |whole| + |fraction| > 0
    ensures AllDigits(whole + fraction)
    ensures ConvertAge(years + ";" + whole + "." + fraction)
         == Ok(Some(12 * DigitsValue(years)
                    + RoundHalfEven(DigitsValue(whole + fraction), Pow10(|fraction|))))
  {
    AllDigitsAppend(whole, fraction);
    FractionalAge(years + ";" + whole + "." + fraction, years, whole, fraction, DigitsValue(years),
                  RoundHalfEven(DigitsValue(whole + fraction), Pow10(|fraction|)));
  }

  /** FractionalMonthAge for an age text and values given by name. */
  lemma {:induction false} FractionalAge(age: string, years: string, whole: string, fraction: string, y: int, v: int)
    requires age == years + ";" + whole + "." + fraction
    requires AllDigits(years) && AllDigits(whole) && AllDigits(fraction)
    requires |whole| + |fraction| > 0
    requires AllDigits(whole + fraction)
    requires y == DigitsValue(years)
    requires v == RoundHalfEven(DigitsValue(whole + fraction), Pow10(|fraction|))
    ensures ConvertAge(age) == Ok(Some(12 * y + v))
  {
    var month := whole + "." + fraction;
    assert ';' !in years && ';' !in month by {
      DigitsAreNoSeparator(years, ';');
      DigitsAreNoSeparator(whole, ';');
      DigitsAreNoSeparator(fraction, ';');
    }
    assert YearSegment(years) == Ok(y) by { DigitSegmentValue(years); }
    assert MonthSegment(month) == Ok(v) by { DecimalSegmentValue(whole, fraction); }
    AgeFromSegments(age, years, month, y, v);
  }

  /** The month segment "W.F" rounds the exact decimal WF / 10^|F|. */
  lemma {:induction false} DecimalSegmentValue(whole: string, fraction: string)
    requires AllDigits(whole) && AllDigits(fraction)
    requires |whole| + |fraction| > 0
    ensures AllDigits(whole + fraction)
    ensures MonthSegment(whole + "." + fraction)
         == Ok(RoundHalfEven(DigitsValue(whole + fraction), Pow10(|fraction|)))
  {
    DecimalLiteralUnsigned(whole, fraction);
    DecimalLiteralValue(whole, fraction);
    ParseUnsignedDecimal(whole + "." + fraction,
                         Decimal(DigitsValue(whole + fraction), |fraction|));
    assert whole + "." + fraction != "";
  }

  /** The empty string raises ValueError: int('') fails on the single segment. */
  lemma EmptyAgeRaises()
    ensures ConvertAge("") == Raise(ValueError)
  {
    assert Split("", ';') == [""];
  }

  /** A year segment that is not an integer raises ValueError, with or without
      a month segment after it. */
  lemma {:induction false} NonNumericYearRaises(years: string, months: string)
    requires years != "" && ';' !in years && ';' !in months
    requires ParseInt(years) == None
    ensures ConvertAge(years) == Raise(ValueError)
    ensures ConvertAge(years + ";" + months) == Raise(ValueError)
  {
    SplitSeparatorFree(years, ';');
    SplitAtFirst(years, ';', months);
    SplitSeparatorFree(months, ';');
    assert years + ";" + months == years + [';'] + months;
  }

  // The assertions of test_convert_age, one lemma each.

  /** "4;6" is 54 months (line 57). */
  lemma AgeFourYearsSixMonths()
    ensures ConvertAge("4;6") == Ok(Some(54))
  {
    WholeAge("4;6", "4", "6", 4, 6);
  }

  /** "2;0" is 24 months (line 58). */
  lemma AgeTwoYears()
    ensures ConvertAge("2;0") == Ok(Some(24))
  {
    WholeAge("2;0", "2", "0", 2, 0);
  }

  /** "0;9" is 9 months (line 59). */
  lemma AgeNineMonths()
    ensures ConvertAge("0;9") == Ok(Some(9))
  {
    WholeAge("0;9", "0", "9", 0, 9);
  }

  /** "4;6.5" is 54 months: the half month rounds to the even 6 (line 60). */
  lemma AgeHalfMonthRoundsToEven()
    ensures ConvertAge("4;6.5") == Ok(Some(54))
  {
    assert "6" + "5" == "65";
    assert DigitsValue("65") == 65 by { assert "65"[1..] == "5"; }
    assert RoundHalfEven(65, 10) == 6;
    FractionalAge("4;6.5", "4", "6", "5", 4, 6);
  }

  /** "1;0.75" is 13 months: 0.75 rounds up (line 61). */
  lemma AgeThreeQuartersRoundsUp()
    ensures ConvertAge("1;0.75") == Ok(Some(13))
  {
    assert "0" + "75" == "075";
    assert DigitsValue("075") == 75 by { assert "075"[1..] == "75"; assert "75"[1..] == "5"; }
    assert RoundHalfEven(75, 100) == 1;
    FractionalAge("1;0.75", "1", "0", "75", 1, 1);
  }

  /** "0;3.2" is 3 months: 3.2 rounds down (line 62). */
  lemma AgeFractionRoundsDown()
    ensures ConvertAge("0;3.2") == Ok(Some(3))
  {
    assert "3" + "2" == "32";
    assert DigitsValue("32") == 32 by { assert "32"[1..] == "2"; }
    assert RoundHalfEven(32, 10) == 3;
    FractionalAge("0;3.2", "0", "3", "2", 0, 3);
  }

  /** "3" is 36 months: a year without a month segment (line 63). */
  lemma AgeYearOnly()
    ensures ConvertAge("3") == Ok(Some(36))
  {
    YearAge("3", 3);
  }

  /** ";8" is 8 months: an empty year reads as 0 (line 64). */
  lemma AgeMonthOnly()
    ensures ConvertAge(";8") == Ok(Some(8))
  {
    WholeAge(";8", "", "8", 0, 8);
  }

  /** ";" is 0 months: both segments empty (line 65). */
  lemma AgeBothSegmentsEmpty()
    ensures ConvertAge(";") == Ok(Some(0))
  {
    WholeAge(";", "", "", 0, 0);
  }

  /** "0;0" is 0 months (line 66). */
  lemma AgeZero()
    ensures ConvertAge("0;0") == Ok(Some(0))
  {
    WholeAge("0;0", "0", "0", 0, 0);
  }

  /** convert_age as its docstring and its test at line 67 describe it: text
      that is not an age gives None instead of raising. */
  function ConvertAgeOrNone(age: string): (r: Option<int>)
    ensures r.Some? ==> ConvertAge(age) == Ok(r)
    ensures ConvertAge(age).Ok? ==> r == ConvertAge(age).value
  {
    match ConvertAge(age)
    case Raise(_) => None
    case Ok(months) => months
  }

  /** The corrected reading meets line 67: "" gives None. Every other
      assertion of test_convert_age carries over, since the corrected reading
      agrees with convert_age wherever convert_age returns. */
  lemma EmptyAgeIsNone()
    ensures ConvertAgeOrNone("") == None
  {
    EmptyAgeRaises();
  }

  /** The corrected reading never fails, and is None exactly on the inputs
      that are not ages: more than one ';', or a segment that is not a number. */
  lemma {:induction false} ConvertAgeOrNoneIsNoneOnBadInput(age: string)
    ensures ConvertAgeOrNone(age) == None
        <==> multiset(age)[';'] >= 2 || ConvertAge(age).Raise?
  {
    ConvertAgeNone(age);
  }

  // ---------------------------------------------------------------------
  // @ID header lines

  /** The fields of an @ID line that the tools use. */
  datatype Speaker = Speaker(id: string, age: Option<int>, role: string)

  /** extract_speaker: split the line on '|' and take field 2 (the speaker
      id), the age of field 3 and field 7 (the role); a line with fewer than
      eight fields raises IndexError. The age is read by ConvertAgeOrNone, so
      an empty or unreadable age field gives no age instead of raising. */
  function ExtractSpeaker(line: string): (r: Result<Speaker>)
    ensures r.Ok? <==> |Split(line, '|')| >= 8
    ensures r.Raise? ==> r.error == IndexError
  {
    var data := Split(line, '|');
    if |data| < 8 then Raise(IndexError)
    else Ok(Speaker(data[2], ConvertAgeOrNone(data[3]), data[7]))
  }

  /** An @ID line built from its fields gives back fields 2 and 7 verbatim and
      the age of field 3, and raises IndexError when it has fewer than eight. */
  lemma {:induction false} ExtractSpeakerFields(fields: seq<string>)
    requires |fields| >= 1
    requires forall k :: 0 <= k < |fields| ==> '|' !in fields[k]
    ensures |fields| < 8 ==> ExtractSpeaker(Join(fields, '|')) == Raise(IndexError)
    ensures |fields| >= 8 ==>
              ExtractSpeaker(Join(fields, '|'))
              == Ok(Speaker(fields[2], ConvertAgeOrNone(fields[3]), fields[7]))
  {
    SplitJoin(fields, '|');
  }

  /** The usual @ID line of an adult leaves the age field empty: convert_age
      as written raises on that field, and the corrected reading gives the
      speaker without an age. */
  lemma AdultWithoutAge()
    ensures var fields := ["@ID:\teng", "Brown", "MOT", "", "", "", "", "Mother", "", "", ""];
      && ConvertAge(fields[3]) == Raise(ValueError)
      && ExtractSpeaker(Join(fields, '|')) == Ok(Speaker("MOT", None, "Mother"))
  {
    var fields := ["@ID:\teng", "Brown", "MOT", "", "", "", "", "Mother", "", "", ""];
    assert ExtractSpeaker(Join(fields, '|')) == Ok(Speaker(fields[2], ConvertAgeOrNone(fields[3]), fields[7])) by {
      assert forall k :: 0 <= k < |fields| ==> '|' !in fields[k];
      ExtractSpeakerFields(fields);
    }
    EmptyAgeIsNone();
    EmptyAgeRaises();
  }

  /** A target child's @ID line gives its id, age in months and role. */
  lemma ChildLineExample()
    ensures var fields := ["@ID:\teng", "Brown", "CHI", "2;0", "male", "", "", "Target_Child", "", "", ""];
      ExtractSpeaker(Join(fields, '|')) == Ok(Speaker("CHI", Some(24), "Target_Child"))
  {
    var fields := ["@ID:\teng", "Brown", "CHI", "2;0", "male", "", "", "Target_Child", "", "", ""];
    assert ExtractSpeaker(Join(fields, '|')) == Ok(Speaker(fields[2], ConvertAgeOrNone(fields[3]), fields[7])) by {
      assert forall k :: 0 <= k < |fields| ==> '|' !in fields[k];
      ExtractSpeakerFields(fields);
    }
    assert ConvertAgeOrNone(fields[3]) == Some(24) by { AgeTwoYears(); }
  }

  // ---------------------------------------------------------------------
  // extract_id_lines

  /** The lines that start with "@ID", in their original order. */
  function IdLines(lines: seq<string>): seq<string> {
    if |lines| == 0 then []
    else
      var last := lines[|lines| - 1];
      IdLines(lines[..|lines| - 1]) + (if StartsWith(last, "@ID") then [last] else [])
  }

  /** extract_id_lines over the lines of a transcript: a loop appending each
      line that starts with "@ID" to the output list. */
  method ExtractIdLines(lines: seq<string>) returns (out: seq<string>)
    ensures out == IdLines(lines)
  {
    out := [];
    var i := 0;
    while i < |lines|
      invariant 0 <= i <= |lines|
      invariant out == IdLines(lines[..i])
    {
      assert lines[..i + 1][..i] == lines[..i];
      if StartsWith(lines[i], "@ID") {
        out := out + [lines[i]];
      }
      i := i + 1;
    }
    assert lines[..i] == lines;
  }

  /** Filtering a concatenation filters each part: the kept lines keep their
      relative order. */
  lemma {:induction false} IdLinesAppend(a: seq<string>, b: seq<string>)
    ensures IdLines(a + b) == IdLines(a) + IdLines(b)
    decreases |b|
  {
    if |b| == 0 {
      assert a + b == a;
    } else {
      var b' := b[..|b| - 1];
      assert (a + b)[..|a + b| - 1] == a + b';
      IdLinesAppend(a, b');
    }
  }

  /** Every line starting with "@ID" is kept as often as it occurs, and no
      other line is kept. */
  lemma {:induction false} IdLinesCount(lines: seq<string>, line: string)
    ensures multiset(IdLines(lines))[line]
         == if StartsWith(line, "@ID") then multiset(lines)[line] else 0
    decreases |lines|
  {
    if |lines| > 0 {
      var init := lines[..|lines| - 1];
      IdLinesCount(init, line);
      assert lines == init + [lines[|lines| - 1]];
    }
  }

  // ---------------------------------------------------------------------
  // Target-child ids (the driver's loop over a language's transcripts)

  /** [extract_speaker(s) for s in id_lines]: every speaker, or the exception
      of the first line that raises. */
  function Speakers(idLines: seq<string>): (r: Result<seq<Speaker>>)
    ensures r.Ok? <==> forall k :: 0 <= k < |idLines| ==> ExtractSpeaker(idLines[k]).Ok?
    ensures r.Ok? ==> |r.value| == |idLines|
                      && forall k :: 0 <= k < |idLines| ==> ExtractSpeaker(idLines[k]) == Ok(r.value[k])
    ensures r.Raise? ==> exists k :: 0 <= k < |idLines| && ExtractSpeaker(idLines[k]) == Raise(r.error)
  {
    if |idLines| == 0 then Ok([])
    else
      match ExtractSpeaker(idLines[0])
      case Raise(e) => Raise(e)
      case Ok(first) =>
        match Speakers(idLines[1..])
        case Raise(e) => Raise(e)
        case Ok(rest) => Ok([first] + rest)
  }

  /** The ids of the speakers whose role is exactly "Target_Child"; the age
      plays no part. */
  function ChildIds(speakers: seq<Speaker>): set<string> {
    set s | s in speakers && s.role == "Target_Child" :: s.id
  }

  /** The speakers of one transcript: extract_speaker of each of its @ID
      lines, or the exception of the first that raises. */
  function ParseTranscript(transcript: seq<string>): Result<seq<Speaker>> {
    Speakers(IdLines(transcript))
  }

  /** Every transcript parsed, in order. */
  function ParseAll(transcripts: seq<seq<string>>): (r: seq<Result<seq<Speaker>>>)
    ensures |r| == |transcripts|
    ensures forall k :: 0 <= k < |transcripts| ==> r[k] == ParseTranscript(transcripts[k])
  {
    seq(|transcripts|, k requires 0 <= k < |transcripts| => ParseTranscript(transcripts[k]))
  }

  /** The id set after visiting the parsed transcripts in order: {"CHI"} grown
      by each transcript's target-child ids, or the first exception raised. */
  function GatherIds(parsed: seq<Result<seq<Speaker>>>): Result<set<string>> {
    if |parsed| == 0 then Ok({"CHI"})
    else
      match GatherIds(parsed[..|parsed| - 1])
      case Raise(e) => Raise(e)
      case Ok(ids) =>
        match parsed[|parsed| - 1]
        case Raise(e) => Raise(e)
        case Ok(speakers) => Ok(ids + ChildIds(speakers))
  }

  /** The target-child ids of a language's transcripts, read in order. */
  function TargetIds(transcripts: seq<seq<string>>): Result<set<string>> {
    GatherIds(ParseAll(transcripts))
  }

  /** The driver's loop: start from {"CHI"} and, transcript by transcript,
      update the set with the ids of the Target_Child speakers. */
  method CollectTargetIds(transcripts: seq<seq<string>>) returns (r: Result<set<string>>)
    ensures r == TargetIds(transcripts)
  {
    ghost var parsed := ParseAll(transcripts);
    var targetIds := {"CHI"};
    var i := 0;
    while i < |transcripts|
      invariant 0 <= i <= |transcripts|
      invariant GatherIds(parsed[..i]) == Ok(targetIds)
    {
      assert parsed[..i + 1][..i] == parsed[..i];
      var idLines := ExtractIdLines(transcripts[i]);
      var speakers := Speakers(idLines);
      if speakers.Raise? {
        GatherIdsRaiseStays(parsed, i + 1);
        assert parsed[..|parsed|] == parsed;
        return Raise(speakers.error);
      }
      targetIds := targetIds + ChildIds(speakers.value);
      i := i + 1;
    }
    assert parsed[..i] == parsed;
    r := Ok(targetIds);
  }

  /** Once a transcript raises, the whole loop has raised that exception. */
  lemma {:induction false} GatherIdsRaiseStays(parsed: seq<Result<seq<Speaker>>>, i: nat)
    requires i <= |parsed|
    requires GatherIds(parsed[..i]).Raise?
    ensures GatherIds(parsed) == GatherIds(parsed[..i])
    decreases |parsed| - i
  {
    if i < |parsed| {
      assert parsed[..i + 1][..i] == parsed[..i];
      GatherIdsRaiseStays(parsed, i + 1);
    } else {
      assert parsed[..i] == parsed;
    }
  }

  /** A failed gathering raised the exception of one of the transcripts. */
  lemma {:induction false} GatherIdsRaises(parsed: seq<Result<seq<Speaker>>>)
    requires GatherIds(parsed).Raise?
    ensures exists k :: 0 <= k < |parsed| && parsed[k] == Raise(GatherIds(parsed).error)
    decreases |parsed|
  {
    var n := |parsed| - 1;
    var init := parsed[..n];
    if GatherIds(init).Raise? {
      GatherIdsRaises(init);
      var k :| 0 <= k < n && init[k] == Raise(GatherIds(init).error);
      assert parsed[k] == init[k];
    }
  }

  /** Some parsed transcript declares `id` as a Target_Child. */
  predicate DeclaredChild(parsed: seq<Result<seq<Speaker>>>, id: string) {
    exists k :: 0 <= k < |parsed| && parsed[k].Ok? && id in ChildIds(parsed[k].value)
  }

  /** The gathering succeeds exactly when every transcript parses, and then
      the set holds "CHI" and the ids of the Target_Child speakers, whatever
      their age, and nothing else. */
  lemma {:induction false} GatherIdsContents(parsed: seq<Result<seq<Speaker>>>)
    ensures GatherIds(parsed).Ok? <==> forall k :: 0 <= k < |parsed| ==> parsed[k].Ok?
    ensures GatherIds(parsed).Ok? ==>
              forall id :: id in GatherIds(parsed).value <==> id == "CHI" || DeclaredChild(parsed, id)
    decreases |parsed|
  {
    if |parsed| > 0 {
      var n := |parsed| - 1;
      var init := parsed[..n];
      GatherIdsContents(init);
      assert forall k :: 0 <= k < n ==> init[k] == parsed[k];
      if GatherIds(parsed).Ok? {
        forall id
          ensures DeclaredChild(parsed, id)
              <==> DeclaredChild(init, id) || id in ChildIds(parsed[n].value)
        {
          if DeclaredChild(parsed, id) {
            var k :| 0 <= k < |parsed| && parsed[k].Ok? && id in ChildIds(parsed[k].value);
            if k < n { assert init[k] == parsed[k]; }
          }
        }
      }
    }
  }

  /** The membership of ChildIds: exactly the ids of the speakers whose role
      is "Target_Child". */
  lemma ChildIdsMembers(speakers: seq<Speaker>, id: string)
    ensures id in ChildIds(speakers)
        <==> exists k :: 0 <= k < |speakers| && speakers[k].role == "Target_Child" && speakers[k].id == id
  {
    if id in ChildIds(speakers) {
      var s :| s in speakers && s.role == "Target_Child" && s.id == id;
      var k :| 0 <= k < |speakers| && speakers[k] == s;
    }
  }

  /** An @ID line that declares `id` as a target child: eight or more
      fields, field 7 "Target_Child" and field 2 the id. */
  predicate DeclaresChild(line: string, id: string) {
    var data := Split(line, '|');
    |data| >= 8 && data[7] == "Target_Child" && data[2] == id
  }

  /** Some line of `lines` declares `id` as a target child. */
  predicate LinesDeclare(lines: seq<string>, id: string) {
    exists j :: 0 <= j < |lines| && DeclaresChild(lines[j], id)
  }

  /** A line that parses gives the speaker whose id and role are its fields
      2 and 7. */
  lemma SpeakerFields(line: string, s: Speaker)
    requires ExtractSpeaker(line) == Ok(s)
    ensures |Split(line, '|')| >= 8
    ensures s.id == Split(line, '|')[2] && s.role == Split(line, '|')[7]
  {
  }

  /** The target-child ids of @ID lines that all parse are the ids the lines
      declare. */
  lemma SpeakersChildIds(lines: seq<string>, speakers: seq<Speaker>, id: string)
    requires Speakers(lines) == Ok(speakers)
    ensures id in ChildIds(speakers) <==> LinesDeclare(lines, id)
  {
    ChildIdsMembers(speakers, id);
    if id in ChildIds(speakers) {
      var j :| 0 <= j < |speakers| && speakers[j].role == "Target_Child" && speakers[j].id == id;
      SpeakerFields(lines[j], speakers[j]);
      assert DeclaresChild(lines[j], id);
    }
    if LinesDeclare(lines, id) {
      var j :| 0 <= j < |lines| && DeclaresChild(lines[j], id);
      SpeakerFields(lines[j], speakers[j]);
      assert speakers[j].role == "Target_Child" && speakers[j].id == id;
    }
  }

  /** extract_speaker over a transcript's @ID lines finishes exactly when every
      line has at least eight fields; otherwise it raises IndexError. */
  lemma SpeakersOk(lines: seq<string>)
    ensures Speakers(lines).Ok? <==> forall j :: 0 <= j < |lines| ==> |Split(lines[j], '|')| >= 8
    ensures Speakers(lines).Raise? ==> Speakers(lines).error == IndexError
  {
    if Speakers(lines).Raise? {
      var k :| 0 <= k < |lines| && ExtractSpeaker(lines[k]) == Raise(Speakers(lines).error);
    }
  }

  /** Some transcript has an @ID line declaring `id` as a target child. */
  predicate SomeTranscriptDeclares(transcripts: seq<seq<string>>, id: string) {
    exists k :: 0 <= k < |transcripts| && LinesDeclare(IdLines(transcripts[k]), id)
  }

  /** The ids the driver hands to clan_command: "CHI" and every id that an @ID
      line of one of the transcripts declares as a target child, and no other. */
  lemma TargetIdsContents(transcripts: seq<seq<string>>, id: string)
    requires TargetIds(transcripts).Ok?
    ensures id in TargetIds(transcripts).value <==> id == "CHI" || SomeTranscriptDeclares(transcripts, id)
  {
    var parsed := ParseAll(transcripts);
    GatherIdsContents(parsed);
    if DeclaredChild(parsed, id) {
      var k :| 0 <= k < |parsed| && parsed[k].Ok? && id in ChildIds(parsed[k].value);
      SpeakersChildIds(IdLines(transcripts[k]), parsed[k].value, id);
    }
    if SomeTranscriptDeclares(transcripts, id) {
      var k :| 0 <= k < |transcripts| && LinesDeclare(IdLines(transcripts[k]), id);
      assert parsed[k].Ok?;
      SpeakersChildIds(IdLines(transcripts[k]), parsed[k].value, id);
      assert DeclaredChild(parsed, id);
    }
  }

  /** "CHI" is always among the ids, whatever the transcripts declare. */
  lemma ChiAlwaysTargeted(transcripts: seq<seq<string>>)
    requires TargetIds(transcripts).Ok?
    ensures "CHI" in TargetIds(transcripts).value
  {
    GatherIdsContents(ParseAll(transcripts));
  }

  /** Every @ID line of every transcript has at least eight fields. */
  predicate AllIdLinesComplete(transcripts: seq<seq<string>>) {
    forall k :: 0 <= k < |transcripts| ==>
      forall j :: 0 <= j < |IdLines(transcripts[k])| ==> |Split(IdLines(transcripts[k])[j], '|')| >= 8
  }

  /** The loop over a language finishes exactly when every @ID line of every
      transcript has at least eight fields; otherwise it raises IndexError. */
  lemma TargetIdsOk(transcripts: seq<seq<string>>)
    ensures TargetIds(transcripts).Ok? <==> AllIdLinesComplete(transcripts)
    ensures TargetIds(transcripts).Raise? ==> TargetIds(transcripts).error == IndexError
  {
    var parsed := ParseAll(transcripts);
    GatherIdsContents(parsed);
    forall k | 0 <= k < |transcripts| {
      SpeakersOk(IdLines(transcripts[k]));
    }
    if TargetIds(transcripts).Raise? {
      GatherIdsRaises(parsed);
      var k :| 0 <= k < |parsed| && parsed[k] == Raise(GatherIds(parsed).error);
    }
  }

  // ---------------------------------------------------------------------
  // clan_command

  /** Each string followed by one space, concatenated. */
  function Terminated(words: seq<string>): string {
    if |words| == 0 then "" else words[0] + " " + Terminated(words[1..])
  }

  /** One "+t*<id>" selector per target, in iteration order. */
  function TargetSelectors(targets: seq<string>): seq<string> {
    seq(|targets|, k requires 0 <= k < |targets| => "+t*" + targets[k])
  }

  /** One "+s<word>" selector per string, duplicates kept. */
  function StringSelectors(strings: seq<string>): seq<string> {
    seq(|strings|, k requires 0 <= k < |strings| => "+s" + strings[k])
  }

  /** The command line in the order the code builds it. */
  function CommandText(targets: seq<string>, strings: seq<string>, output: string): string {
    "freq +u " + Terminated(TargetSelectors(targets)) + Terminated(StringSelectors(strings))
    + "*.cha > " + output + ".cex"
  }

  /** clan_command: the two loops that append the selectors to the command.
      The targets come in the order a set happens to iterate them. */
  method ClanCommand(targets: seq<string>, strings: seq<string>, output: string)
    returns (command: string)
    ensures command == CommandText(targets, strings, output)
  {
    command := "freq +u ";
    var i := 0;
    while i < |targets|
      invariant 0 <= i <= |targets|
      invariant command == "freq +u " + Terminated(TargetSelectors(targets[..i]))
    {
      assert TargetSelectors(targets[..i + 1]) == TargetSelectors(targets[..i]) + ["+t*" + targets[i]];
      TerminatedSnoc(TargetSelectors(targets[..i]), "+t*" + targets[i]);
      command := command + "+t*" + targets[i] + " ";
      i := i + 1;
    }
    assert targets[..i] == targets;
    ghost var head := command;
    var j := 0;
    while j < |strings|
      invariant 0 <= j <= |strings|
      invariant command == head + Terminated(StringSelectors(strings[..j]))
    {
      assert StringSelectors(strings[..j + 1]) == StringSelectors(strings[..j]) + ["+s" + strings[j]];
      TerminatedSnoc(StringSelectors(strings[..j]), "+s" + strings[j]);
      command := command + "+s" + strings[j] + " ";
      j := j + 1;
    }
    assert strings[..j] == strings;
    command := command + "*.cha > " + output + ".cex";
  }

  lemma {:induction false} TerminatedSnoc(words: seq<string>, w: string)
    ensures Terminated(words + [w]) == Terminated(words) + w + " "
    decreases |words|
  {
    if |words| == 0 {
      assert words + [w] == [w];
    } else {
      assert (words + [w])[1..] == words[1..] + [w];
      TerminatedSnoc(words[1..], w);
    }
  }

  lemma {:induction false} TerminatedConcat(a: seq<string>, b: seq<string>)
    ensures Terminated(a + b) == Terminated(a) + Terminated(b)
    decreases |a|
  {
    if |a| == 0 {
      assert a + b == b;
    } else {
      assert (a + b)[1..] == a[1..] + b;
      TerminatedConcat(a[1..], b);
    }
  }

  /** Words ending in a space, then a tail: splitting at spaces gives the
      words back, then the pieces of the tail. */
  lemma {:induction false} SplitTerminated(words: seq<string>, tail: string)
    requires forall k :: 0 <= k < |words| ==> ' ' !in words[k]
    ensures Split(Terminated(words) + tail, ' ') == words + Split(tail, ' ')
    decreases |words|
  {
    if |words| > 0 {
      var rest := Terminated(words[1..]) + tail;
      SplitTerminated(words[1..], tail);
      assert Terminated(words) == words[0] + [' '] + Terminated(words[1..]);
      assert Terminated(words) + tail == words[0] + [' '] + rest;
      SplitAtFirst(words[0], ' ', rest);
      calc {
        Split(Terminated(words) + tail, ' ');
        [words[0]] + Split(rest, ' ');
        [words[0]] + (words[1..] + Split(tail, ' '));
        ([words[0]] + words[1..]) + Split(tail, ' ');
        { assert words == [words[0]] + words[1..]; }
        words + Split(tail, ' ');
      }
    } else {
      assert Terminated(words) + tail == tail;
      assert words + Split(tail, ' ') == Split(tail, ' ');
    }
  }

  /** When no id, string or output name contains a space, the command splits
      into exactly: freq, +u, one selector per target, one per string, the
      input pattern, the redirection and the output file. */
  lemma {:induction false} CommandWords(targets: seq<string>, strings: seq<string>, output: string)
    requires forall k :: 0 <= k < |targets| ==> ' ' !in targets[k]
    requires forall k :: 0 <= k < |strings| ==> ' ' !in strings[k]
    requires ' ' !in output
    ensures Split(CommandText(targets, strings, output), ' ')
         == ["freq", "+u"] + TargetSelectors(targets) + StringSelectors(strings)
            + ["*.cha", ">", output + ".cex"]
  {
    var ts, ss := TargetSelectors(targets), StringSelectors(strings);
    var words := ["freq", "+u"] + ts + ss + ["*.cha", ">"];
    assert Terminated(["freq", "+u"]) == "freq +u ";
    assert Terminated(["*.cha", ">"]) == "*.cha > ";
    TerminatedConcat(["freq", "+u"] + ts + ss, ["*.cha", ">"]);
    TerminatedConcat(["freq", "+u"] + ts, ss);
    TerminatedConcat(["freq", "+u"], ts);
    assert CommandText(targets, strings, output) == Terminated(words) + (output + ".cex");
    forall k | 0 <= k < |words| ensures ' ' !in words[k] {
      if 2 <= k < 2 + |ts| {
        assert words[k] == "+t*" + targets[k - 2];
      } else if 2 + |ts| <= k < 2 + |ts| + |ss| {
        assert words[k] == "+s" + strings[k - 2 - |ts|];
      }
    }
    SplitTerminated(words, output + ".cex");
    SplitSeparatorFree(output + ".cex", ' ');
  }

  /** The English pronouns the driver counts. */
  const EnglishPronouns: seq<string> := ["I", "you", "he", "she", "we", "they"]

  /** The English pronoun command of the driver, for the generic child id,
      written as its head, its six selectors and its redirection. */
  lemma EnglishCommandExample()
    ensures CommandText(["CHI"], EnglishPronouns, "pronoun_counts_English")
         == "freq +u +t*CHI " + "+sI +syou +she +sshe +swe +sthey " + "*.cha > pronoun_counts_English.cex"
  {
    EnglishSelectors();
    assert "freq +u " + "+t*CHI " == "freq +u +t*CHI ";
    assert "*.cha > " + "pronoun_counts_English" + ".cex" == "*.cha > pronoun_counts_English.cex";
  }

  /** The selectors of the English command, each followed by its space. */
  lemma EnglishSelectors()
    ensures Terminated(TargetSelectors(["CHI"])) == "+t*CHI "
    ensures Terminated(StringSelectors(EnglishPronouns)) == "+sI +syou +she +sshe +swe +sthey "
  {
    var ts := TargetSelectors(["CHI"]);
    assert ts[0] == "+t*" + "CHI" == "+t*CHI";
    assert ts == ["+t*CHI"];
    assert ts[1..] == [];
    PronounSelectors();
    var first, second, third := ["+sI", "+syou"], ["+she", "+sshe"], ["+swe", "+sthey"];
    assert StringSelectors(EnglishPronouns) == first + second + third;
    TerminatedConcat(first + second, third);
    TerminatedConcat(first, second);
    TerminatedPair("+sI", "+syou");
    TerminatedPair("+she", "+sshe");
    TerminatedPair("+swe", "+sthey");
    PronounJoin();
  }

  /** The three pairs of English selectors, joined. */
  lemma PronounJoin()
    ensures "+sI" + " " + "+syou" + " " + ("+she" + " " + "+sshe" + " ") + ("+swe" + " " + "+sthey" + " ")
         == "+sI +syou +she +sshe +swe +sthey "
  {
    assert "+sI" + " " + "+syou" + " " == "+sI +syou ";
    assert "+she" + " " + "+sshe" + " " == "+she +sshe ";
    assert "+swe" + " " + "+sthey" + " " == "+swe +sthey ";
    assert "+sI +syou " + "+she +sshe " == "+sI +syou +she +sshe ";
  }

  /** One "+s" selector per English pronoun, in the listed order. */
  lemma PronounSelectors()
    ensures StringSelectors(EnglishPronouns) == ["+sI", "+syou", "+she", "+sshe", "+swe", "+sthey"]
  {
    var ss := StringSelectors(EnglishPronouns);
    assert ss[0] == "+s" + "I" == "+sI";
    assert ss[1] == "+s" + "you" == "+syou";
    assert ss[2] == "+s" + "he" == "+she";
    assert ss[3] == "+s" + "she" == "+sshe";
    assert ss[4] == "+s" + "we" == "+swe";
    assert ss[5] == "+s" + "they" == "+sthey";
  }

  /** Two words, each followed by its space. */
  lemma TerminatedPair(a: string, b: string)
    ensures Terminated([a, b]) == a + " " + b + " "
  {
    assert [a, b][1..] == [b];
    assert [b][1..] == [];
    assert Terminated([b]) == b + " ";
    assert Terminated([a, b]) == a + " " + (b + " ");
  }
}
