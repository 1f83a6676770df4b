/** combine_speakers: reads a CLAN freq report (a .cex file) and adds up, over
    every speaker section, the count of each word and the number of tokens.
    The file is given as the sequence of its lines. */
module AnalyzeData {
  import opened PyText

  // ---------------------------------------------------------------------
  // The header: everything up to the first "Speaker" line

  /** The line that opens the speaker sections of the report. */
  predicate IsMarker(line: string) {
    StartsWith(line, "Speaker")
  }

  /** The position of the first marker line, if any. */
  function FirstMarker(lines: seq<string>): (r: Option<nat>)
    ensures r.Some? ==> r.value < |lines| && IsMarker(lines[r.value])
    ensures r.Some? ==> forall j :: 0 <= j < r.value ==> !IsMarker(lines[j])
    ensures r.None? <==> forall j :: 0 <= j < |lines| ==> !IsMarker(lines[j])
  {
    if |lines| == 0 then None
    else if IsMarker(lines[0]) then Some(0)
    else
      match FirstMarker(lines[1..])
      case None => None
      case Some(i) => Some(i + 1)
  }

  // ---------------------------------------------------------------------
  // One report line

  /** What one line after the marker does to the totals. */
  datatype LineKind =
    | Skipped                              // blank, or not starting with a digit
    | TokenTotal(count: int)               // "<n> ... (tokens)"
    | Statistic                            // "<n> ... used" or "<n> ... ratio"
    | WordCount(word: string, count: int) // "<n> <word>"
    | Fault(error: PyError)                // the line raises

  /** The body of the second loop for one line: strip it, skip it unless it
      starts with a digit, cut it at the first space into count and word,
      and sort it by the word's ending. int() is applied to the count only
      on the branches that use it. */
  function Classify(line: string): (k: LineKind)
    ensures k.Fault? ==> k.error != LoopsForever
  {
    var s := Strip(line);
    if |s| == 0 || !IsDigit(s[0]) then Skipped
    else
      var t := SplitOnce(s, ' ');
      if |t| < 2 then Fault(IndexError)
      else if EndsWith(t[1], "(tokens)") then
        match ParseInt(t[0])
        case None => Fault(ValueError)
        case Some(n) => TokenTotal(n)
      else if !EndsWith(t[1], "used") && !EndsWith(t[1], "ratio") then
        match ParseInt(t[0])
        case None => Fault(ValueError)
        case Some(n) => WordCount(t[1], n)
      else Statistic
  }

  /** Every line classified, in order. */
  function Kinds(lines: seq<string>): (r: seq<LineKind>)
    ensures |r| == |lines|
    ensures forall k :: 0 <= k < |lines| ==> r[k] == Classify(lines[k])
  {
    seq(|lines|, k requires 0 <= k < |lines| => Classify(lines[k]))
  }

  // ---------------------------------------------------------------------
  // The totals

  /** The two results: the word counts (a defaultdict(int)) and the tokens. */
  datatype Counts = Counts(words: map<string, int>, tokens: int)

  /** words[word] of a defaultdict(int): 0 for a word never seen. */
  function CountOf(words: map<string, int>, word: string): int {
    if word in words then words[word] else 0
  }

  /** One line's effect on the totals: `tokens += n`, `words[word] += n`, or
      the line's exception. */
  function Step(c: Counts, k: LineKind): Result<Counts> {
    match k
    case Skipped => Ok(c)
    case Statistic => Ok(c)
    case TokenTotal(n) => Ok(c.(tokens := c.tokens + n))
    case WordCount(word, n) => Ok(c.(words := c.words[word := CountOf(c.words, word) + n]))
    case Fault(e) => Raise(e)
  }

  /** The totals after the classified lines, in order, or the exception of
      the first line that raises. */
  function Tally(kinds: seq<LineKind>): Result<Counts> {
    if |kinds| == 0 then Ok(Counts(map[], 0))
    else
      match Tally(kinds[..|kinds| - 1])
      case Raise(e) => Raise(e)
      case Ok(c) => Step(c, kinds[|kinds| - 1])
  }

  /** The result of combine_speakers on a report: the lines after the first
      marker line, tallied; with no marker line at all the call never returns. */
  function Combine(lines: seq<string>): Result<Counts> {
    match FirstMarker(lines)
    case None => Raise(LoopsForever)
    case Some(i) => Tally(Kinds(lines[i + 1..]))
  }

  /** combine_speakers: a cursor that skips to the marker line, then a loop
      over the rest that updates the word map and the token counter. */
  method CombineSpeakers(lines: seq<string>) returns (r: Result<Counts>)
    ensures r == Combine(lines)
  {
    var cursor := 0;
    while cursor < |lines| && !IsMarker(lines[cursor])
      invariant 0 <= cursor <= |lines|
      invariant forall j :: 0 <= j < cursor ==> !IsMarker(lines[j])
    {
      cursor := cursor + 1;
    }
    if cursor == |lines| {
      // Past the end readline() keeps returning "", which is no marker.
      return Raise(LoopsForever);
    }
    assert FirstMarker(lines) == Some(cursor);
    r := TallyReport(lines[cursor + 1..]);
  }

  /** The for loop of combine_speakers over the lines after the marker: each
      line updates the word map or the token counter as Step says, or raises. */
  method TallyReport(body: seq<string>) returns (r: Result<Counts>)
    ensures r == Tally(Kinds(body))
  {
    var words: map<string, int> := map[];
    var tokens := 0;
    ghost var kinds := Kinds(body);
    var j := 0;
    while j < |body|
      invariant 0 <= j <= |body|
      invariant Tally(kinds[..j]) == Ok(Counts(words, tokens))
    {
      TallyNext(kinds, j);
      var next := Step(Counts(words, tokens), Classify(body[j]));
      if next.Raise? {
        TallyRaiseStays(kinds, j + 1);
        return next;
      }
      words, tokens := next.value.words, next.value.tokens;
      j := j + 1;
    }
    assert kinds[..j] == kinds;
    r := Ok(Counts(words, tokens));
  }

  /** One more line: its step applied to the totals so far. */
  lemma TallyNext(kinds: seq<LineKind>, j: nat)
    requires j < |kinds| && Tally(kinds[..j]).Ok?
    ensures Tally(kinds[..j + 1]) == Step(Tally(kinds[..j]).value, kinds[j])
  {
    assert kinds[..j + 1][..j] == kinds[..j];
  }

  /** Once a line raises, the whole call has raised that exception. */
  lemma {:induction false} TallyRaiseStays(kinds: seq<LineKind>, i: nat)
    requires i <= |kinds|
    requires Tally(kinds[..i]).Raise?
    ensures Tally(kinds) == Tally(kinds[..i])
    decreases |kinds| - i
  {
    if i < |kinds| {
      assert kinds[..i + 1][..i] == kinds[..i];
      TallyRaiseStays(kinds, i + 1);
    } else {
      assert kinds[..i] == kinds;
    }
  }

  // ---------------------------------------------------------------------
  // What the totals are

  /** The sum of the counts of the token lines. */
  function TokenSum(kinds: seq<LineKind>): int {
    if |kinds| == 0 then 0
    else
      var last := kinds[|kinds| - 1];
      TokenSum(kinds[..|kinds| - 1]) + (if last.TokenTotal? then last.count else 0)
  }

  /** The sum of the counts of the word lines with this word. */
  function WordSum(kinds: seq<LineKind>, word: string): int {
    if |kinds| == 0 then 0
    else
      var last := kinds[|kinds| - 1];
      WordSum(kinds[..|kinds| - 1], word)
      + (if last.WordCount? && last.word == word then last.count else 0)
  }

  /** The labels of the word lines. */
  function WordLabels(kinds: seq<LineKind>): set<string> {
    set k | 0 <= k < |kinds| && kinds[k].WordCount? :: kinds[k].word
  }

  /** The tally succeeds exactly when no line raises; then the tokens are the
      sum over the token lines, the map holds exactly the labels of the word
      lines, and each word maps to the sum of its counts over all its lines. */
  lemma {:induction false} TallyContents(kinds: seq<LineKind>)
    ensures Tally(kinds).Ok? <==> forall k :: 0 <= k < |kinds| ==> !kinds[k].Fault?
    ensures Tally(kinds).Ok? ==> Tally(kinds).value.tokens == TokenSum(kinds)
    ensures Tally(kinds).Ok? ==>
              forall word :: word in Tally(kinds).value.words <==> word in WordLabels(kinds)
    ensures Tally(kinds).Ok? ==>
              forall word :: word in Tally(kinds).value.words ==>
                Tally(kinds).value.words[word] == WordSum(kinds, word)
    decreases |kinds|
  {
    if |kinds| > 0 {
      var n := |kinds| - 1;
      var init := kinds[..n];
      TallyContents(init);
      assert forall k :: 0 <= k < n ==> init[k] == kinds[k];
      if Tally(kinds).Ok? {
        var c := Tally(init).value;
        assert WordLabels(kinds)
            == WordLabels(init) + (if kinds[n].WordCount? then {kinds[n].word} else {}) by {
          forall word | word in WordLabels(kinds)
            ensures word in WordLabels(init) || (kinds[n].WordCount? && word == kinds[n].word)
          {
            var k :| 0 <= k < |kinds| && kinds[k].WordCount? && kinds[k].word == word;
            if k < n { assert init[k] == kinds[k]; }
          }
        }
        forall word | word in Tally(kinds).value.words
          ensures Tally(kinds).value.words[word] == WordSum(kinds, word)
        {
          if word !in c.words {
            assert WordSum(init, word) == 0 by { WordSumAbsent(init, word); }
          }
        }
      }
    }
  }

  /** A word that no word line carries sums to nothing. */
  lemma {:induction false} WordSumAbsent(kinds: seq<LineKind>, word: string)
    requires word !in WordLabels(kinds)
    ensures WordSum(kinds, word) == 0
    decreases |kinds|
  {
    if |kinds| > 0 {
      var n := |kinds| - 1;
      var init := kinds[..n];
      assert WordLabels(init) <= WordLabels(kinds) by {
        forall word' | word' in WordLabels(init) ensures word' in WordLabels(kinds) {
          var k :| 0 <= k < n && init[k].WordCount? && init[k].word == word';
          assert kinds[k] == init[k];
        }
      }
      WordSumAbsent(init, word);
    }
  }

  /** When the tally raises, it raises the exception of the first faulty line. */
  lemma {:induction false} TallyRaisesFirstFault(kinds: seq<LineKind>)
    requires Tally(kinds).Raise?
    ensures exists k :: 0 <= k < |kinds| && kinds[k] == Fault(Tally(kinds).error)
                     && forall j :: 0 <= j < k ==> !kinds[j].Fault?
    decreases |kinds|
  {
    var n := |kinds| - 1;
    var init := kinds[..n];
    assert forall k :: 0 <= k < n ==> init[k] == kinds[k];
    if Tally(init).Raise? {
      TallyRaisesFirstFault(init);
      var k :| 0 <= k < n && init[k] == Fault(Tally(init).error)
               && forall j :: 0 <= j < k ==> !init[j].Fault?;
      assert kinds[k] == init[k];
    } else {
      TallyContents(init);
      assert kinds[n] == Fault(Tally(kinds).error);
    }
  }

  // ---------------------------------------------------------------------
  // The whole report

  /** combine_speakers returns exactly when the report has a marker line;
      otherwise the skipping loop never ends. */
  lemma CombineHangs(lines: seq<string>)
    ensures Combine(lines) == Raise(LoopsForever)
        <==> forall j :: 0 <= j < |lines| ==> !IsMarker(lines[j])
  {
    var m := FirstMarker(lines);
    if m.Some? && Combine(lines).Raise? {
      var kinds := Kinds(lines[m.value + 1..]);
      TallyRaisesFirstFault(kinds);
      var k :| 0 <= k < |kinds| && kinds[k] == Fault(Tally(kinds).error);
    }
  }

  /** Nothing up to and including the first marker line counts: the result
      is the tally of the lines after it. */
  lemma CombineAfterMarker(header: seq<string>, marker: string, body: seq<string>)
    requires forall j :: 0 <= j < |header| ==> !IsMarker(header[j])
    requires IsMarker(marker)
    ensures Combine(header + [marker] + body) == Tally(Kinds(body))
  {
    var lines := header + [marker] + body;
    assert lines[|header|] == marker;
    assert forall j :: 0 <= j < |header| ==> lines[j] == header[j];
    assert FirstMarker(lines) == Some(|header|);
    assert lines[|header| + 1..] == body;
  }

  /** A report whose marker line is its last line gives no words and no tokens. */
  lemma CombineEmptyBody(header: seq<string>, marker: string)
    requires forall j :: 0 <= j < |header| ==> !IsMarker(header[j])
    requires IsMarker(marker)
    ensures Combine(header + [marker]) == Ok(Counts(map[], 0))
  {
    CombineAfterMarker(header, marker, []);
    assert header + [marker] + [] == header + [marker];
  }

  /** combine_speakers of a report with a marker line returns counts exactly
      when no line after the marker raises; then the tokens are the sum of the
      token lines and each word maps to the sum of its own lines. */
  lemma CombineContents(header: seq<string>, marker: string, body: seq<string>)
    requires forall j :: 0 <= j < |header| ==> !IsMarker(header[j])
    requires IsMarker(marker)
    ensures Combine(header + [marker] + body).Ok?
        <==> forall k :: 0 <= k < |body| ==> !Classify(body[k]).Fault?
    ensures Combine(header + [marker] + body).Ok? ==>
              Combine(header + [marker] + body).value.tokens == TokenSum(Kinds(body))
    ensures Combine(header + [marker] + body).Ok? ==>
              forall word :: word in Combine(header + [marker] + body).value.words <==>
                word in WordLabels(Kinds(body))
    ensures Combine(header + [marker] + body).Ok? ==>
              forall word :: word in Combine(header + [marker] + body).value.words ==>
                Combine(header + [marker] + body).value.words[word] == WordSum(Kinds(body), word)
  {
    CombineAfterMarker(header, marker, body);
    TallyContents(Kinds(body));
  }

  /** Two speakers who both say "I": the word counts add up across the
      sections, the token totals too, and the statistics count for nothing. */
  lemma TwoSpeakersExample()
    ensures Tally([WordCount("I", 2), TokenTotal(2), Statistic, Skipped,
                   WordCount("I", 1), WordCount("you", 1), TokenTotal(2), Statistic])
         == Ok(Counts(map["I" := 3, "you" := 1], 4))
  {
    var ks := [WordCount("I", 2), TokenTotal(2), Statistic, Skipped,
               WordCount("I", 1), WordCount("you", 1), TokenTotal(2), Statistic];
    assert ks[..0] == [];
    TallyNext(ks, 0);
    assert Tally(ks[..1]) == Ok(Counts(map["I" := 2], 0));
    TallyNext(ks, 1);
    assert Tally(ks[..2]) == Ok(Counts(map["I" := 2], 2));
    TallyNext(ks, 2);
    assert Tally(ks[..3]) == Ok(Counts(map["I" := 2], 2));
    TallyNext(ks, 3);
    assert Tally(ks[..4]) == Ok(Counts(map["I" := 2], 2));
    TallyNext(ks, 4);
    assert map["I" := 2]["I" := 2 + 1] == map["I" := 3];
    assert Tally(ks[..5]) == Ok(Counts(map["I" := 3], 2));
    TallyNext(ks, 5);
    assert Tally(ks[..6]) == Ok(Counts(map["I" := 3, "you" := 1], 2));
    TallyNext(ks, 6);
    assert Tally(ks[..7]) == Ok(Counts(map["I" := 3, "you" := 1], 4));
    TallyNext(ks, 7);
    assert Tally(ks[..8]) == Ok(Counts(map["I" := 3, "you" := 1], 4));
    assert ks[..8] == ks;
  }

  // ---------------------------------------------------------------------
  // Kinds of line

  /** White space around a line does not change what it counts as. */
  lemma ClassifyStripped(line: string)
    ensures Classify(Strip(line)) == Classify(line)
  {
    StripIdempotent(line);
  }

  /** A blank line or one that does not start with a digit is skipped. */
  lemma ClassifySkipped(line: string)
    ensures Classify(line) == Skipped <==> (Strip(line) == [] || !IsDigit(Strip(line)[0]))
  {
  }

  /** A skipped line between two stretches of a report changes nothing. */
  lemma {:induction false} TallySkipsInserted(a: seq<LineKind>, b: seq<LineKind>)
    ensures Tally(a + [Skipped] + b) == Tally(a + b)
    decreases |b|
  {
    if |b| == 0 {
      assert a + [Skipped] + b == a + [Skipped];
      assert (a + [Skipped])[..|a|] == a;
      assert a + b == a;
    } else {
      var n := |b| - 1;
      TallySkipsInserted(a, b[..n]);
      assert (a + [Skipped] + b)[..|a| + 1 + n] == a + [Skipped] + b[..n];
      assert (a + b)[..|a| + n] == a + b[..n];
    }
  }

  /** The same for the lines of the body: a skipped line adds nothing. */
  lemma TallyIgnoresSkippedLine(front: seq<string>, line: string, back: seq<string>)
    requires Classify(line) == Skipped
    ensures Tally(Kinds(front + [line] + back)) == Tally(Kinds(front + back))
  {
    KindsAppend(front, [line]);
    KindsAppend(front + [line], back);
    KindsAppend(front, back);
    assert Kinds([line]) == [Skipped];
    TallySkipsInserted(Kinds(front), Kinds(back));
  }

  /** Classifying two stretches of lines is classifying each. */
  lemma KindsAppend(a: seq<string>, b: seq<string>)
    ensures Kinds(a + b) == Kinds(a) + Kinds(b)
  {
    assert forall k :: 0 <= k < |a| ==> (a + b)[k] == a[k];
    assert forall k :: |a| <= k < |a| + |b| ==> (a + b)[k] == b[k - |a|];
  }

  /** Inserting a blank line, or one that does not start with a digit,
      anywhere after the marker leaves the result of combine_speakers as it
      was. */
  lemma CombineIgnoresUncounted(header: seq<string>, marker: string, front: seq<string>,
                                line: string, back: seq<string>)
    requires forall j :: 0 <= j < |header| ==> !IsMarker(header[j])
    requires IsMarker(marker)
    requires Strip(line) == [] || !IsDigit(Strip(line)[0])
    ensures Combine(header + [marker] + front + [line] + back) == Combine(header + [marker] + front + back)
  {
    ClassifySkipped(line);
    TallyIgnoresSkippedLine(front, line, back);
    CombineSplice(header, marker, front, [line], back);
  }

  /** A report cut into a header, its marker and a body in three stretches
      tallies the body, with or without its middle stretch. */
  lemma CombineSplice(header: seq<string>, marker: string, front: seq<string>,
                      middle: seq<string>, back: seq<string>)
    requires forall j :: 0 <= j < |header| ==> !IsMarker(header[j])
    requires IsMarker(marker)
    ensures Combine(header + [marker] + front + middle + back) == Tally(Kinds(front + middle + back))
    ensures Combine(header + [marker] + front + back) == Tally(Kinds(front + back))
  {
    assert Combine(header + [marker] + front + middle + back) == Tally(Kinds(front + middle + back)) by {
      assert header + [marker] + front + middle + back == header + [marker] + (front + middle + back);
      CombineAfterMarker(header, marker, front + middle + back);
    }
    assert Combine(header + [marker] + front + back) == Tally(Kinds(front + back)) by {
      assert header + [marker] + front + back == header + [marker] + (front + back);
      CombineAfterMarker(header, marker, front + back);
    }
  }

  /** A count read from a report line is never negative: it is the text
      before the first space of a stripped line that starts with a digit. */
  lemma ClassifyCountNonNegative(line: string)
    ensures Classify(line).TokenTotal? ==> Classify(line).count >= 0
    ensures Classify(line).WordCount? ==> Classify(line).count >= 0
  {
    var s := Strip(line);
    if |s| > 0 && IsDigit(s[0]) {
      var t := SplitOnce(s, ' ');
      if |t| == 2 {
        assert s == t[0] + [' '] + t[1];
        assert |t[0]| > 0 && t[0][0] == s[0];
        ParseIntLeadingDigit(t[0]);
      }
    }
  }

  /** Every token and word line of `kinds` carries a count of at least 0. */
  predicate CountsNonNegative(kinds: seq<LineKind>) {
    forall k :: 0 <= k < |kinds| && (kinds[k].TokenTotal? || kinds[k].WordCount?) ==> kinds[k].count >= 0
  }

  /** Sums of counts that are never negative are never negative. */
  lemma {:induction false} SumsNonNegative(kinds: seq<LineKind>, word: string)
    requires CountsNonNegative(kinds)
    ensures TokenSum(kinds) >= 0 && WordSum(kinds, word) >= 0
    decreases |kinds|
  {
    if |kinds| > 0 {
      var init := kinds[..|kinds| - 1];
      assert forall k :: 0 <= k < |init| ==> init[k] == kinds[k];
      SumsNonNegative(init, word);
    }
  }

  /** combine_speakers never reports a negative number of tokens or a
      negative word count. */
  lemma CombineNonNegative(lines: seq<string>)
    requires Combine(lines).Ok?
    ensures Combine(lines).value.tokens >= 0
    ensures forall word :: word in Combine(lines).value.words ==> Combine(lines).value.words[word] >= 0
  {
    var i := FirstMarker(lines).value;
    var body := lines[i + 1..];
    var kinds := Kinds(body);
    assert Combine(lines) == Tally(kinds);
    forall k | 0 <= k < |kinds| && (kinds[k].TokenTotal? || kinds[k].WordCount?)
      ensures kinds[k].count >= 0
    {
      ClassifyCountNonNegative(body[k]);
    }
    TallyContents(kinds);
    SumsNonNegative(kinds, "");
    forall word | word in Tally(kinds).value.words
      ensures Tally(kinds).value.words[word] >= 0
    {
      SumsNonNegative(kinds, word);
    }
  }

  /** "<digits> <word>(tokens)": the digits are added to the tokens. */
  lemma TokenLine(count: string, word: string)
    requires |count| > 0 && AllDigits(count)
    requires EndsWith(word, "(tokens)")
    ensures Classify(" " + count + " " + word + "\n") == TokenTotal(DigitsValue(count))
  {
    assert word[|word| - 1] == ')' by {
      assert word[|word| - 8..][7] == ')';
    }
    CountedLine(count, word);
  }

  /** "<digits> <word>": the digits are added to the word's count, the word
      being all of the text after the first space. */
  lemma WordLine(count: string, word: string)
    requires |count| > 0 && AllDigits(count)
    requires |word| > 0 && !IsSpace(word[|word| - 1])
    requires !EndsWith(word, "(tokens)") && !EndsWith(word, "used") && !EndsWith(word, "ratio")
    ensures Classify(" " + count + " " + word + "\n") == WordCount(word, DigitsValue(count))
  {
    CountedLine(count, word);
  }

  /** What Classify sees of a "<digits> <word>" line: the stripped text
      starts with a digit, splits into count and word, and int() reads the
      count. */
  lemma CountedLine(count: string, word: string)
    requires |count| > 0 && AllDigits(count)
    requires |word| > 0 && !IsSpace(word[|word| - 1])
    ensures var s := Strip(" " + count + " " + word + "\n");
      |s| > 0 && IsDigit(s[0]) && SplitOnce(s, ' ') == [count, word]
      && ParseInt(count) == Some(DigitsValue(count))
  {
    assert IsDigit(count[0]) && SpaceFree(count) by {
      DigitsFacts(count);
    }
    ReportLine(count, word);
    ParseIntDigits(count);
  }

  /** "<n> ... used" and "<n> ... ratio" add nothing, whatever follows the
      leading digit: the count is never read as a number. */
  lemma StatisticLine(count: string, word: string)
    requires |count| > 0 && IsDigit(count[0]) && SpaceFree(count)
    requires EndsWith(word, "used") || EndsWith(word, "ratio")
    ensures Classify(" " + count + " " + word + "\n") == Statistic
  {
    assert !IsSpace(word[|word| - 1]) by {
      if EndsWith(word, "used") {
        assert word[|word| - 4..][3] == 'd';
      } else {
        assert word[|word| - 5..][4] == 'o';
      }
    }
    ReportLine(count, word);
  }

  /** A line that starts with a digit but has no space raises IndexError. */
  lemma NoSpaceLine(count: string)
    requires |count| > 0 && AllDigits(count)
    ensures Classify(" " + count + "\n") == Fault(IndexError)
  {
    DigitsAreNoSeparator(count, ' ');
    DigitsFacts(count);
    assert Strip(" " + count + "\n") == count by {
      StripPadded(count);
    }
  }

  /** The stripped text of a "<count> <word>" line and its split, for a count
      that starts with a digit and has no white space in it. */
  lemma ReportLine(count: string, word: string)
    requires |count| > 0 && IsDigit(count[0]) && SpaceFree(count)
    requires |word| > 0 && !IsSpace(word[|word| - 1])
    ensures Strip(" " + count + " " + word + "\n") == count + " " + word
    ensures SplitOnce(count + " " + word, ' ') == [count, word]
  {
    var u := count + " " + word;
    assert Strip(" " + u + "\n") == u by {
      assert u[0] == count[0];
      assert u[|u| - 1] == word[|word| - 1];
      StripPadded(u);
    }
    assert " " + count + " " + word + "\n" == " " + u + "\n";
    assert SplitOnce(u, ' ') == [count, word] by {
      assert forall k :: 0 <= k < |count| ==> count[k] != ' ';
      SplitOnceAt(count, ' ', word);
    }
  }

  /** A count that int() rejects makes a token or word line raise ValueError. */
  lemma BadCountLine(count: string, word: string)
    requires |count| > 0 && IsDigit(count[0]) && SpaceFree(count) && !AllDigits(count)
    requires |word| > 0 && !IsSpace(word[|word| - 1])
    requires !EndsWith(word, "used") && !EndsWith(word, "ratio")
    ensures Classify(" " + count + " " + word + "\n") == Fault(ValueError)
  {
    ReportLine(count, word);
    assert ParseInt(count) == None by {
      StripSpaceFree(count);
    }
  }
}
