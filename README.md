# Transcript ages, target-child ids and pronoun counts

This project models the core of a small pipeline that prepares child-language
corpora (CHAT `.cha` transcripts) for the CLAN `freq` tool and reads its
reports back:

- `convert_age` reads a CHAT age `"years;months"` as a number of months.
  The month may be fractional and is rounded half to even, as Python's
  `round` does.
- `extract_id_lines` keeps the `@ID` header lines of a transcript.
  `extract_speaker` picks the speaker id, age and role out of one such line.
- The driver loop collects the ids of every `Target_Child` speaker of a
  language's transcripts, starting from `{"CHI"}`.
- `clan_command` builds the `freq` command line for those ids and a list of
  words.
- `combine_speakers` reads a `freq` report. It skips everything up to the
  first `Speaker` line and then adds up, over all speaker sections, each
  word's count and the token totals.

The files:

- `py_text.dfy` (module `PyText`) defines the Python built-ins the code leans
  on. These are `str.split` with one separator, `split(' ', 1)`, `strip()`,
  `startswith`/`endswith`, `isdigit`, `int()`, the exact-decimal part of
  `float()` and `round()`. Each has its own defining properties.
- `bin_data.dfy` (module `BinData`) holds `convert_age`, `extract_speaker`,
  `extract_id_lines`, the target-id loop of the driver and `clan_command`.
- `analyze_data.dfy` (module `AnalyzeData`) holds `combine_speakers`.

Exceptions are values. A call that raises gives `Raise(ValueError)` or
`Raise(IndexError)` instead of `Ok(...)`. The loop that never ends when a
report has no `Speaker` line gives `Raise(LoopsForever)`.

The loops of the source are methods: `ExtractIdLines`, `CollectTargetIds`,
`ClanCommand`, `CombineSpeakers` and `TallyReport`. Each is proved equal to a
function, and the lemmas state what that function computes.

Three behaviours of the code are worth knowing, and the model keeps them:

- An empty report, or one without a `Speaker` line, makes the skipping loop
  at `AnalyzeData.py:10-11` run forever. `readline()` returns `""` at the end
  of the file, and `""` never starts with `Speaker`. `CombineHangs` states
  this.
- A report line is split at the first single space (`AnalyzeData.py:16`), so
  any further spaces stay in the label.
- The filter at `BinData.py:124` does not look at the age. With the
  corrected age reading (see "## Left out") every `Target_Child` id is
  kept. As written, `convert_age` at line 99 raises first on an empty or
  non-numeric age, and the loop stops there.

## Model

| member | source | states |
|---|---|---|
| PyText.SplitCount | BinData.py:37 | `str.split(c)` gives one more part than `c` occurs in the text |
| PyText.SplitAtFirst | BinData.py:98 | splitting at a first separator gives the text before it, then the split of the rest |
| PyText.SplitJoin | BinData.py:98 | splitting fields joined with the pipe character, none holding one, gives the same fields back |
| PyText.JoinSplit | BinData.py:98 | joining the parts of a split with the separator gives the original line back |
| PyText.SplitOnce | AnalyzeData.py:16 | `split(' ', 1)` gives one part when the line has no space and two otherwise; the first part has no space, and the parts rejoined around a space give the line |
| PyText.SplitOnceAt | AnalyzeData.py:16 | `split(' ', 1)` cuts at the first space and leaves later spaces in the second part |
| PyText.StripFacts | AnalyzeData.py:13 | `strip()` gives a slice of the line that neither starts nor ends with white space, and only white space is cut off either end |
| PyText.StripIdempotent | AnalyzeData.py:13 | stripping twice is stripping once |
| PyText.StripSpaceFree | AnalyzeData.py:13 | a line without white space is its own strip |
| PyText.StripPadded | AnalyzeData.py:13 | the leading space and trailing newline of a report line are what `strip()` removes |
| PyText.ParseIntDigits | BinData.py:39 | `int()` of a string of decimal digits is its decimal value |
| PyText.ParseIntLeadingDigit | AnalyzeData.py:14 | a number that starts with a digit is never negative |
| PyText.ParseIntSpacedSigned | BinData.py:39-42 | `int()` ignores surrounding white space and honours a sign, as for a year segment such as `" -1"` |
| PyText.DecimalLiteralValue | BinData.py:43 | `float()` of `"whole.fraction"` is the exact decimal value |
| PyText.RoundHalfEvenNearest | BinData.py:43 | `round()` gives an integer at most half a unit away, and the even one on a tie |
| PyText.RoundHalfEvenUnique | BinData.py:43 | any integer with that nearest-with-ties-to-even property is `round()`'s result |
| BinData.ConvertAge | BinData.py:37-48 | the only exception the model of `convert_age` raises is ValueError (the OverflowError of `round` on an infinite float is left out) |
| BinData.AgeOfSegments | BinData.py:38-45 | the result is None exactly when there are three or more segments; any exception is ValueError |
| BinData.ConvertAgeNone | BinData.py:37-45 | None exactly when the age holds two or more `';'` |
| BinData.DigitSegmentValue | BinData.py:42-43 | a segment of digits, or an empty one, reads as its decimal value both as a year and as a month |
| BinData.AgeFromSegments | BinData.py:37-48 | `"Y;M"` with readable segments gives 12 × y + m |
| BinData.WholeMonthAge | BinData.py:41-48 | `"Y;M"` in whole digits gives 12 × Y + M months |
| BinData.YearOnlyAge | BinData.py:38-40 | a year without `';'` gives 12 × Y months |
| BinData.FractionalMonthAge | BinData.py:43 | a fractional month is the exact decimal rounded half to even, added to 12 × Y |
| BinData.DecimalSegmentValue | BinData.py:43 | a month segment `"w.f"` reads as round-half-even of its exact value |
| BinData.EmptyAgeRaises | BinData.py:39 | `convert_age("")` raises ValueError |
| BinData.NonNumericYearRaises | BinData.py:39-42 | a non-empty year that is not an integer raises ValueError, with or without a month |
| BinData.AgeFourYearsSixMonths | BinData.py:57 | "4;6" is 54 |
| BinData.AgeTwoYears | BinData.py:58 | "2;0" is 24 |
| BinData.AgeNineMonths | BinData.py:59 | "0;9" is 9 |
| BinData.AgeHalfMonthRoundsToEven | BinData.py:60 | "4;6.5" is 54: the tie goes to the even 6 |
| BinData.AgeThreeQuartersRoundsUp | BinData.py:61 | "1;0.75" is 13 |
| BinData.AgeFractionRoundsDown | BinData.py:62 | "0;3.2" is 3 |
| BinData.AgeYearOnly | BinData.py:63 | "3" is 36 |
| BinData.AgeMonthOnly | BinData.py:64 | ";8" is 8 |
| BinData.AgeBothSegmentsEmpty | BinData.py:65 | ";" is 0 |
| BinData.AgeZero | BinData.py:66 | "0;0" is 0 |
| BinData.ConvertAgeOrNone | BinData.py:27-36 | any age it gives is `convert_age`'s, and whenever `convert_age` does not raise it gives that result |
| BinData.EmptyAgeIsNone | BinData.py:67 | the corrected reading of "" is None |
| BinData.ConvertAgeOrNoneIsNoneOnBadInput | BinData.py:29-30 | None exactly when the age has more than one `';'` or is not a number |
| BinData.ExtractSpeaker | BinData.py:98-99 | a line succeeds exactly when it has at least eight pipe-separated fields; otherwise it raises IndexError |
| BinData.ExtractSpeakerFields | BinData.py:98-99 | a line built from fields gives fields 2 and 7 verbatim and the age of field 3, or IndexError when there are fewer than eight |
| BinData.AdultWithoutAge | BinData.py:99 | an adult's @ID line has an empty age field: `convert_age` raises on it, and the corrected reading gives the speaker with no age |
| BinData.ChildLineExample | BinData.py:99 | a child's @ID line gives `("CHI", 24, "Target_Child")` |
| BinData.ExtractIdLines | BinData.py:80-85 | the loop's output is the lines that start with "@ID", in their order |
| BinData.IdLinesAppend | BinData.py:82-84 | the `@ID` lines of two parts of a transcript are those of the first, then those of the second |
| BinData.IdLinesCount | BinData.py:83-84 | a line is kept as often as it occurs when it starts with "@ID", and never otherwise |
| BinData.Speakers | BinData.py:123 | the speakers exist exactly when every line parses; speaker k is line k's, and a failure is the exception of one of the lines |
| BinData.SpeakersOk | BinData.py:123 | with the corrected age reading, the speakers of a transcript exist exactly when every @ID line has at least eight fields; otherwise the exception is IndexError |
| BinData.SpeakersChildIds | BinData.py:123-125 | the target-child ids of parsed lines are exactly the field-2 ids of the lines whose field 7 is "Target_Child" |
| BinData.CollectTargetIds | BinData.py:113-125 | the driver's loop computes the fold of the transcripts' target-child ids from `{"CHI"}` |
| BinData.GatherIdsRaiseStays | BinData.py:121-125 | once one transcript raises, the loop ends with that exception |
| BinData.GatherIdsRaises | BinData.py:121-125 | a failed loop raised the exception of one of the transcripts |
| BinData.GatherIdsContents | BinData.py:114-125 | the loop succeeds exactly when every transcript parses; the set is then "CHI" and the target-child ids of the transcripts, nothing else |
| BinData.TargetIdsContents | BinData.py:113-125 | an id is in the result exactly when it is "CHI" or an @ID line of some transcript declares it as Target_Child |
| BinData.ChiAlwaysTargeted | BinData.py:114 | "CHI" is always in the set |
| BinData.TargetIdsOk | BinData.py:121-125 | with the corrected age reading, the loop finishes exactly when every @ID line of every transcript has eight fields; otherwise it raises IndexError |
| BinData.ClanCommand | BinData.py:18-24 | the loops build the text "freq +u ", then a "+t*id " per target and a "+sword " per string, then "*.cha > output.cex" |
| BinData.TerminatedSnoc | BinData.py:20 | one more loop step appends the new selector and one space |
| BinData.TerminatedConcat | BinData.py:19-22 | the selectors of two lists, run one after the other, are the concatenation of their texts |
| BinData.SplitTerminated | BinData.py:19-22 | splitting space-terminated words on ' ' gives the words back |
| BinData.CommandWords | BinData.py:18-23 | for space-free ids, words and output, the command's words are `freq`, `+u`, the target selectors, the string selectors, `*.cha`, `>` and `output.cex` |
| BinData.EnglishSelectors | BinData.py:109 | the selectors for the child id "CHI" and the six English pronouns `I`, `you`, `he`, `she`, `we`, `they` are "+t*CHI " and "+sI +syou +she +sshe +swe +sthey " |
| BinData.EnglishCommandExample | BinData.py:128 | the English command for `{"CHI"}` and the six English pronouns is "freq +u +t*CHI +sI +syou +she +sshe +swe +sthey *.cha > pronoun_counts_English.cex" |
| AnalyzeData.FirstMarker | AnalyzeData.py:10-11 | the position of the first line starting with "Speaker" (none before it), or None exactly when no line does |
| AnalyzeData.Classify | AnalyzeData.py:13-20 | handling one report line can raise, but it never hangs |
| AnalyzeData.CombineSpeakers | AnalyzeData.py:6-21 | the method computes `Combine`: a hang without a marker, else the tally of the lines after the first marker |
| AnalyzeData.TallyReport | AnalyzeData.py:12-20 | the loop over the body computes the tally of the body's line kinds |
| AnalyzeData.TallyRaiseStays | AnalyzeData.py:12-20 | once a line raises, the whole tally is that exception |
| AnalyzeData.TallyContents | AnalyzeData.py:7-21 | the tally succeeds exactly when no line raises; tokens are the sum over the token lines, and the map holds exactly the counted words, each with the sum of its counts |
| AnalyzeData.WordSumAbsent | AnalyzeData.py:7 | a word that no line counts sums to 0 |
| AnalyzeData.TallyRaisesFirstFault | AnalyzeData.py:12-20 | a failed tally raised the exception of the first line that raises |
| AnalyzeData.CombineHangs | AnalyzeData.py:10-11 | the call hangs exactly when no line starts with "Speaker" |
| AnalyzeData.CombineAfterMarker | AnalyzeData.py:10-12 | only the lines after the first marker are tallied |
| AnalyzeData.CombineEmptyBody | AnalyzeData.py:7-8 | a report that ends at its marker gives no words and 0 tokens |
| AnalyzeData.CombineContents | AnalyzeData.py:6-21 | for a report with a marker: success exactly when no body line raises; then the token sum, the counted words and each word's summed count |
| AnalyzeData.TwoSpeakersExample | AnalyzeData.py:12-20 | two speaker sections counting "I" twice and once, "you" once and 2 tokens each sum to I=3, you=1, 4 tokens |
| AnalyzeData.ClassifyStripped | AnalyzeData.py:13 | a line is handled as its stripped text |
| AnalyzeData.TallySkipsInserted | AnalyzeData.py:14-15 | a skipped line inserted anywhere among the classified lines leaves the tally unchanged |
| AnalyzeData.ClassifyCountNonNegative | AnalyzeData.py:14-20 | a token or word count read from a line is never negative, since it is the text before the first space of a stripped line that starts with a digit |
| AnalyzeData.CombineNonNegative | AnalyzeData.py:6-21 | when `combine_speakers` succeeds, its token total and every word count are at least 0 |
| AnalyzeData.CombineIgnoresUncounted | AnalyzeData.py:12-15 | inserting a blank line, or one that does not start with a digit, anywhere after the marker leaves the result of `combine_speakers` unchanged |
| AnalyzeData.CountedLine | AnalyzeData.py:13-16 | a padded "count word" line strips and splits into the count and the word |
| AnalyzeData.ReportLine | AnalyzeData.py:13-16 | the same for a count that starts with a digit and has no space |
| AnalyzeData.TokenLine | AnalyzeData.py:17-18 | a line ending in "(tokens)" adds its count to the tokens |
| AnalyzeData.WordLine | AnalyzeData.py:19-20 | any other line not ending in "used" or "ratio" adds its count to its word |
| AnalyzeData.StatisticLine | AnalyzeData.py:19 | a line ending in "used" or "ratio" is ignored, whatever its count looks like |
| AnalyzeData.NoSpaceLine | AnalyzeData.py:16-17 | a line that is only a number raises IndexError at `t[1]` |
| AnalyzeData.BadCountLine | AnalyzeData.py:17-20 | a counted line whose count is not an integer raises ValueError |

## Left out

- File I/O is not modelled. A transcript or report is given as the sequence of its lines, and the `__main__` drivers appear only as the target-id loop.
  That includes directory walking and printing.
- The `__main__` driver of `AnalyzeData.py` is left out. It uses `age_bins` (line 28), which the imported `BinData` does not define, so it stops with NameError.
- The CLAN `freq` tool is not modelled. Only the command text is.
- BinData.ClanCommand: takes the targets as a sequence. Python's set iteration order is left out, so the selectors appear in any order the caller chooses.
- BinData.ExtractSpeaker: reads the age with the corrected `ConvertAgeOrNone`. An @ID line whose age field is empty or not a number gives a speaker without an age. Line 99 as written raises ValueError from `convert_age` instead (see Findings).
- AnalyzeData.CombineSpeakers: a hang is the value `Raise(LoopsForever)`, not non-termination.
- PyText.ParseDecimal: reads only exact decimal literals (digits with an optional point and sign). Binary floating point, exponents, `inf`/`nan` and underscores in literals are left out. Rounding is exact half-to-even on the decimal value, which agrees with binary `round(float(...))` only where the literal's double has the same rounding.
- BinData.ConvertAge: `round(float(parts[1]))` at line 43 raises OverflowError when `float()` gives an infinity. That happens for `"0;inf"`, `"0;1e400"` or a month too large for a double (about 1.8e308 or more). The model reads the month as an exact decimal, so it returns a value for such a large month and rejects the other two with ValueError.
- BinData.DigitSegmentValue: a month of digits is its exact value. Above 2^53 Python's `float()` first rounds it to the nearest double, and the model does not follow that rounding.
- PyText.ParseInt: reads optionally signed ASCII digit strings surrounded by white space. Underscores between digits (`"1_000"`) are rejected, which Python accepts. Python 3.11's limit of 4300 digits, beyond which `int()` raises ValueError, is left out.
- PyText.IsDigit: ASCII digits only. Python's `isdigit` and `int()` also accept other Unicode digits.

## Findings

| source | as written | input that shows it | evidently intended | confidence | as-written member | corrected member |
|---|---|---|---|---|---|---|
| BinData.py:39 | `int(parts[0])` on the only segment raises ValueError for an empty age | `convert_age("")`, and every adult @ID line, whose age field is empty | None, as the test at line 67 and the docstring at lines 29-30 say | not executed | BinData.EmptyAgeRaises | BinData.EmptyAgeIsNone |
