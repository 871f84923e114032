# Banana-defect reply parser

A Dafny model of the part of `fyffe_app.py` that turns a vision model's
free-text reply about bananas into BigQuery row records. It covers
lines 113-166 and the exception handler at lines 181-182. The parser works
in four steps:

1. Every asterisk is removed from the reply (line 114).
2. Every run of whitespace other than the newline becomes one space
   (line 115).
3. The text is cut into segments with `re.split(r"Bunch \d+", ...)`
   (line 120).
4. Two nested loops run over segments and their lines (lines 123-166).
   Lines that start with one of five labels set five variables. At the end
   of each segment either a row is appended to `rows_to_insert` or the
   warning "Bunch number or bananas per bunch are missing in the response."
   is shown.

The model follows the code as written:

- The five variables are initialised once, before the segment loop, and
  are never reset. A value set in one segment carries into the following
  ones.
- Line 125 initialises `bananas_per_bunch`. The loop reads and writes
  `min_bananas_per_bunch`, which starts unassigned. A segment whose bunch
  number is set while no line so far has assigned the minimum raises
  `NameError`.
- An `int()` of a count string that is not an integer literal, or that has
  more than 4300 digits (the interpreter's default conversion limit),
  raises `ValueError`.
- Both exceptions leave the loop for the blanket handler at lines 181-182,
  so no row at all is inserted. The outcome is
  `Abort(error, warnings shown so far)`; otherwise it is `Ok(rows, warnings)`.
- `line.replace(label, "")` removes every occurrence of the label in the
  line, not only the leading one.

Modules, one file each:

- `StrOps` (`str_ops.dfy`): the Python `str` operations used, on
  `seq<char>`. These are `isspace`, `strip`, `split(sep)`, `startswith`
  and `replace(pat, "")`.
- `Cleanup` (`cleanup.dfy`): lines 114-115.
- `BunchSplit` (`bunch_split.dfy`): line 120.
- `FieldScan` (`field_scan.dfy`): the line scan at lines 134-150.
- `IntLiteral` (`int_literal.dfy`): base-10 `int()`.
- `ResponseParser` (`response_parser.dfy`): the segment loop at lines
  123-166 and the handler at lines 181-182. It has two parts:
  - a specification, `Parse`, built from a per-segment `Step`, with its
    closed form and lemmas;
  - the imperative methods `ScanLines`, `FinishSegment` and
    `ParseResponse`, which run the loops with the variables updated as they
    go and are proved equal to `Parse`.
- `Wrappers` (`wrappers.dfy`): `Option`.

The segment-loop functions (`Step`, `Process`, `FieldsAt`, `RowsUpTo`, ...)
take the per-segment scan as a parameter of type `SegmentScan`. `Parse` and
the method use them with `ScanSegment`, the real line scan. The loop
bookkeeping is proved for any scan; the facts about the real scan are
proved separately.

## Model

| member | source | states |
|---|---|---|
| StrOps.IsSpace | fyffe_app.py:115 | CPython's `str.isspace`, the class behind `\S`, `[^\S\n]` and `strip()`; `StripInfix` and `CollapseIsCollapsed` state what is removed with it |
| StrOps.StartsWith | fyffe_app.py:136-148 | `line.startswith(label)`; `LabelsExclusive` and `ApplyLineEffect` state that at most one label test succeeds and what it selects |
| StrOps.SplitOn | fyffe_app.py:134 | `str.split(sep)`: at least one piece; `JoinSplitOn`, `SplitOnLeftmost` and `SplitOnPiecesFree` pin it down as the leftmost non-overlapping cut |
| StrOps.RemoveAll | fyffe_app.py:137-149 | `str.replace(pat, "")`, never longer than its input; `RemoveAllJoinsPieces` ties it to `SplitOn` |
| StrOps.Strip | fyffe_app.py:137 | `strip()` leaves no whitespace at either end and never lengthens the text |
| StrOps.TrimStartSuffix | fyffe_app.py:137 | the left half of `strip()` keeps a suffix and drops only whitespace |
| StrOps.TrimEndPrefix | fyffe_app.py:137 | the right half of `strip()` keeps a prefix and drops only whitespace |
| StrOps.StripInfix | fyffe_app.py:137 | `strip()` returns the infix between a whitespace-only prefix and a whitespace-only suffix |
| StrOps.StripStripped | fyffe_app.py:159-161 | stripping text that is already stripped returns it unchanged |
| StrOps.StripIdempotent | fyffe_app.py:159-161 | stripping twice is stripping once |
| StrOps.JoinSplitOn | fyffe_app.py:134 | joining the pieces of `split(sep)` with `sep` gives back the text |
| StrOps.SplitOnHead | fyffe_app.py:134 | the first piece of `split(sep)` is a prefix of the text |
| StrOps.SplitOnPiecesFree | fyffe_app.py:134 | no piece of `split(sep)` contains `sep` |
| StrOps.LinesCount | fyffe_app.py:134 | `split('\n')` gives one more line than the text has newlines |
| StrOps.SplitOnLeftmost | fyffe_app.py:134 | `split(sep)` cuts at the leftmost occurrence: none starts inside the first piece, which is followed by `sep` and then by the split of the rest, or else is the whole text |
| StrOps.RemoveAllJoinsPieces | fyffe_app.py:137-149 | `replace(pat, "")` equals the pieces of `split(pat)` joined with nothing: the occurrences found scanning left to right without overlap are removed |
| Cleanup.StripAsterisks | fyffe_app.py:114 | the asterisk substitution, never longer than its input; `StripAsterisksNoStar`, `StripAsterisksCounts` and `StripAsterisksAppend` state that exactly the asterisks go and the rest stays in order |
| Cleanup.StripAsterisksNoStar | fyffe_app.py:114 | no `*` is left after line 114 |
| Cleanup.StripAsterisksCounts | fyffe_app.py:114 | every character other than `*` occurs as often after line 114 as before |
| Cleanup.StripAsterisksAppend | fyffe_app.py:114 | removing asterisks distributes over concatenation, so the kept characters stay in order |
| Cleanup.StripAsterisksFixed | fyffe_app.py:114 | line 114 leaves the text unchanged exactly when it holds no `*` |
| Cleanup.IsBlank | fyffe_app.py:115 | the class `[^\S\n]`, whitespace other than the newline; `CollapseIsCollapsed`, `CollapseKeepsNonBlanks` and `CleanKeepsLines` state what line 115 does with it |
| Cleanup.CollapseBlanks | fyffe_app.py:115 | the first character of the result is a space when the text starts with a blank, and otherwise is the text's own first character |
| Cleanup.CollapseIsCollapsed | fyffe_app.py:115 | after line 115 every non-newline whitespace character is a plain space and no two are adjacent |
| Cleanup.CollapseKeepsNonBlanks | fyffe_app.py:115 | line 115 keeps every character that is not non-newline whitespace, in order |
| Cleanup.CollapseRun | fyffe_app.py:115 | a run made only of non-newline whitespace becomes one space |
| Cleanup.CollapseSplitsAt | fyffe_app.py:115 | collapsing distributes over a split at any character that is not a blank |
| Cleanup.CollapseChars | fyffe_app.py:115 | line 115 brings in no character other than the space |
| Cleanup.CollapseFixed | fyffe_app.py:115 | collapsed text is left unchanged |
| Cleanup.Clean | fyffe_app.py:114-115 | the whole clean-up; `CleanIdempotent` and `CleanKeepsLines` state that it is idempotent and keeps the lines |
| Cleanup.CleanIdempotent | fyffe_app.py:114-115 | cleaning twice is cleaning once |
| Cleanup.CleanKeepsLines | fyffe_app.py:114-115 | the clean-up keeps every newline, so the number of lines is unchanged |
| BunchSplit.DigitRun | fyffe_app.py:120 | the length of the leading digit run: every character before it is a digit and the one after is not |
| BunchSplit.IsDelimiter | fyffe_app.py:120 | a full match of `Bunch \d+`; `DelimiterAtLongest`, `DelimitersMatch` and `SegmentsHoldNoDelimiter` state that the split removes exactly such matches |
| BunchSplit.DelimiterAt | fyffe_app.py:120 | a match of `Bunch \d+` at the front is a delimiter followed by a non-digit or by the end (greedy `+`) |
| BunchSplit.DelimiterAtLongest | fyffe_app.py:120 | the match at a position is at least as long as any delimiter there |
| BunchSplit.DelimiterAtExact | fyffe_app.py:120 | a delimiter followed by a non-digit is matched exactly |
| BunchSplit.NoStraddle | fyffe_app.py:120 | a non-empty match-free segment followed by text starting with `Bunch ` has no match at its front, so the split never joins the two |
| BunchSplit.SplitBunches | fyffe_app.py:120 | `re.split(r"Bunch \d+", ...)`: the unique decomposition of `SplitUnique`, with k+1 segments for k matches by `SplitCount` |
| BunchSplit.Delimiters | fyffe_app.py:120 | the matches the split removes, in order; `DelimitersMatch` and `SplitRoundTrip` state that each is a full match and that they interleave with the segments to give the text |
| BunchSplit.SplitCount | fyffe_app.py:120 | k matches give k+1 segments |
| BunchSplit.SplitRoundTrip | fyffe_app.py:120 | interleaving the segments with the removed delimiters reproduces the text |
| BunchSplit.DelimitersMatch | fyffe_app.py:120 | every removed piece matches `Bunch \d+` in full |
| BunchSplit.SplitHead | fyffe_app.py:120 | the first segment is a prefix of the text |
| BunchSplit.SegmentsHoldNoDelimiter | fyffe_app.py:120 | no segment contains a match |
| BunchSplit.SegmentsAfterGreedyMatch | fyffe_app.py:120 | no segment after a delimiter starts with a digit, because the match took every digit |
| BunchSplit.SplitWithoutDelimiter | fyffe_app.py:120 | text without a match is one segment |
| BunchSplit.SplitAtDelimiter | fyffe_app.py:120 | a leading delimiter yields an empty first segment |
| BunchSplit.SplitCons | fyffe_app.py:120 | a match-free segment, a delimiter and the rest split into that segment followed by the rest's split |
| BunchSplit.SplitUnique | fyffe_app.py:120 | any decomposition with these properties is the one the split returns |
| FieldScan.Text | fyffe_app.py:136-148 | every label starts with a space and is longer than two characters |
| FieldScan.ValueOf | fyffe_app.py:137-149 | a label's value is stripped and no longer than its line |
| FieldScan.Initial | fyffe_app.py:124-128 | four empty strings and an unassigned minimum; `ScanAssigned` and `NameErrorAt` state what the unassigned value leads to |
| FieldScan.ApplyLine | fyffe_app.py:136-149 | the `if`/`elif` chain for one line; `ApplyLineEffect` and `ApplyLineOneField` state which variable it sets and to what |
| FieldScan.Scan | fyffe_app.py:134-150 | the inner loop over the lines; `ScanAppend`, `ScanLastWins`, `ScanUntouched` and `ScanAssigned` state its effect |
| FieldScan.LabelsExclusive | fyffe_app.py:136-148 | no line starts with two different labels |
| FieldScan.ApplyLineEffect | fyffe_app.py:134-150 | a line starting with a label sets that variable to the line with the label removed, then stripped; a variable whose label the line does not start with keeps its value |
| FieldScan.ApplyLineOneField | fyffe_app.py:134-150 | a line changes at most one variable, and only one whose label it starts with |
| FieldScan.ApplyLineTidy | fyffe_app.py:137-149 | variables that are all stripped stay stripped after a line |
| FieldScan.ScanAppend | fyffe_app.py:129-150 | scanning two runs of lines is scanning the first, then the second from where the first left off |
| FieldScan.ScanUntouched | fyffe_app.py:134-150 | a variable no line is labelled for keeps its value |
| FieldScan.ScanLastWins | fyffe_app.py:134-150 | the last line labelled for a variable decides its value |
| FieldScan.ScanTidy | fyffe_app.py:134-150 | the scan keeps every variable stripped |
| FieldScan.ScanAssigned | fyffe_app.py:125-140 | `min_bananas_per_bunch` is assigned after a scan exactly when it was assigned before or some line is labelled for it |
| IntLiteral.ParseInt | fyffe_app.py:157-158 | `int()` succeeds exactly on an optional sign followed by one to 4300 ASCII digits |
| IntLiteral.ShowNatDigits | fyffe_app.py:157-158 | the decimal form of a natural number is a digit run whose value is that number |
| IntLiteral.ParseShowInt | fyffe_app.py:157-158 | `int(str(n)) == n` when `str(n)` has at most 4300 digits, and `ValueError` beyond that |
| IntLiteral.LeadingZero | fyffe_app.py:157-158 | leading zeros do not change the value |
| IntLiteral.LeadingZeroParse | fyffe_app.py:157-158 | a leading zero keeps the value of `int()` but counts towards the digit limit |
| IntLiteral.SignedLiteral | fyffe_app.py:157-158 | `-` negates the value and `+` keeps it; the sign does not count towards the digit limit |
| ResponseParser.Judge | fyffe_app.py:153-158 | the test `bunch_number and min_bananas_per_bunch` and the two `int()` calls, in Python's evaluation order; `JudgeCases` states each outcome |
| ResponseParser.RowFor | fyffe_app.py:154-163 | the appended record; `AcceptedRow` and `RowsShape` state its contents |
| ResponseParser.Lines | fyffe_app.py:134 | `bunch.split('\n')`, which `LinesCount` and `SplitOnLeftmost` describe |
| ResponseParser.ScanSegment | fyffe_app.py:134-150 | one segment's inner loop; `ScanLines` computes it line by line |
| ResponseParser.EndSegment | fyffe_app.py:153-166 | a warning, an exception or a row at the end of a segment; `FinishSegment` computes it, and `ProcessRunning` and `CrashStops` sum it up over the loop |
| ResponseParser.Step | fyffe_app.py:129-166 | one iteration of the segment loop, a no-op once an exception was raised (`StoppedSticks`) |
| ResponseParser.Process | fyffe_app.py:129-166 | the segment loop after n iterations; `ProcessRunning`, `ProcessStops` and `Accounting` give it in closed form |
| ResponseParser.FieldsAt | fyffe_app.py:124-150 | the variables after n segments; `FieldsAtAllLines` states that they are never reset |
| ResponseParser.Bunches | fyffe_app.py:113-120 | the segments of the cleaned reply |
| ResponseParser.Parse | fyffe_app.py:113-182 | the whole parser; `ParseOk`, `ParseAborts` and `ParseAbortIff` state its outcome, and `ParseResponse` computes it |
| ResponseParser.JudgeCases | fyffe_app.py:153-158 | end of a segment: a warning exactly when either count string is empty; `NameError` exactly when the bunch number is set and the minimum is unassigned; a row exactly when both are integer literals `int()` converts; otherwise `ValueError` on the first non-literal, bunch number first |
| ResponseParser.CarryOver | fyffe_app.py:124-150 | a segment with no line labelled for a variable leaves it as earlier segments set it |
| ResponseParser.FieldsAtAllLines | fyffe_app.py:124-150 | the variables are never reset: after n segments they are the scan of all those segments' lines from the initial values |
| ResponseParser.NameErrorAt | fyffe_app.py:125-153 | a segment raises `NameError` exactly when its bunch number is set and no line so far, in any segment, was labelled for the minimum |
| ResponseParser.ProcessRunning | fyffe_app.py:129-166 | while nothing raises, after n segments the loop holds the scanned variables, one row per accepted segment in order and one warning per rejected segment |
| ResponseParser.Accounting | fyffe_app.py:153-166 | without an exception, rows plus warnings equal the number of segments |
| ResponseParser.CrashStops | fyffe_app.py:153-182 | the first segment that raises stops the loop with its error and the earlier warnings |
| ResponseParser.ProcessStops | fyffe_app.py:153-182 | after the first raising segment, the loop stays stopped with that error |
| ResponseParser.StoppedSticks | fyffe_app.py:181-182 | once stopped, later segments change nothing |
| ResponseParser.FirstCrash | fyffe_app.py:129-166 | if some segment raises, there is a first one |
| ResponseParser.FieldsAtTidy | fyffe_app.py:137-149 | the variables are always stripped |
| ResponseParser.AcceptedRow | fyffe_app.py:154-163 | an accepted segment's row carries the caller's URI, the `int()` values of the two count strings, the text variables as they stand (re-stripping changes nothing) and the clock reading of its position |
| ResponseParser.RowsShape | fyffe_app.py:154-163 | every row has the caller's URI, the k-th clock reading and stripped text fields |
| ResponseParser.ParseOk | fyffe_app.py:123-166 | without an exception the result is the accepted segments' rows in order plus one warning per rejected segment, one of the two for every segment |
| ResponseParser.ParseAborts | fyffe_app.py:153-182 | the first raising segment aborts the whole parse; no row survives, and the warnings are those shown before it |
| ResponseParser.ParseAbortIff | fyffe_app.py:181-182 | the parse aborts exactly when some segment raises |
| ResponseParser.StoppedParse | fyffe_app.py:181-182 | a stopped loop makes the parse abort with its error and warnings |
| ResponseParser.ScanLines | fyffe_app.py:134-150 | the inner loop, updating the five variables line by line, ends with the segment's scan |
| ResponseParser.FinishSegment | fyffe_app.py:153-166 | the end-of-segment block gives the warning, the exception or the appended row that `EndSegment` prescribes |
| ResponseParser.ParseResponse | fyffe_app.py:113-166 | the clean-up, split and nested loops, with the state updated in place, return exactly `Parse` of the reply |

## Left out

- The Streamlit UI: the title, uploader, camera and image display, and how
  warnings and errors are rendered. Warnings are an output sequence, and the
  error is a `ParseError` value rather than a message.
- The session counter and the file name and URI construction. `image_uri`
  is a parameter.
- The GCS upload, image encoding, the Vertex AI call and its configuration,
  and stream concatenation. The input is the fully assembled reply.
- The BigQuery insert at lines 168-179, including the "No defects found in
  the image." warning at line 179 for an empty row list. The output is the
  row list and the warnings up to line 166.
- `datetime.datetime.now()` at line 162 is a parameter `clock: nat -> int`.
  The k-th row appended reads `clock(k)`.
- The unused pattern at line 89, the commented-out matcher at lines
  130-133, and every `print` call.
- `bananas_per_bunch` (line 125) is assigned and never read, so it has no
  counterpart.
- The regex engine. `re.sub` and `re.split` at lines 114, 115 and 120 are
  direct string functions.
- IntLiteral.ParseInt: accepts only ASCII digits after an optional sign. It
  does not model `int()`'s underscores or non-ASCII Unicode decimal digits.
  The digit limit is fixed at the default of 4300. A limit changed through
  `sys.set_int_max_str_digits` or `PYTHONINTMAXSTRDIGITS` is not modelled,
  and neither are interpreters that predate the limit and have none.
  BunchSplit.DigitRun likewise takes only ASCII digits as `\d`.
- StrOps.IsSpace is CPython's `str.isspace` table, which is also `\s` for
  `re` on `str`. It is not checked against any Unicode database.
- `int()`'s own tolerance of surrounding whitespace is not modelled: every
  value it receives is already stripped (`FieldsAtTidy`).
