/** The response-to-rows parser: the reply is cleaned, cut into bunch
    segments, and each segment's lines are scanned into five variables that
    persist across segments. After each segment either a row is appended or a
    warning is shown. An exception raised on the way (an unassigned variable,
    an `int()` of a non-number) leaves the loop for the blanket handler, and
    no row is inserted. */
module ResponseParser {
  import opened StrOps
  import opened Wrappers
  import opened Cleanup
  import opened BunchSplit
  import opened FieldScan
  import opened IntLiteral

  const MissingWarning: string := "Bunch number or bananas per bunch are missing in the response."

  /** One record of `rows_to_insert`. */
  datatype Row = Row(
    imageUri: string,
    bunchNumber: int,
    bananasPerBunch: int,
    defectType: string,
    defectLevel: string,
    additionalDescription: string,
    timestamp: int)

  /** The exceptions the loop can raise. */
  datatype ParseError =
    | NameError                    // `min_bananas_per_bunch` read while unassigned
    | ValueError(literal: string)  // `int()` of a string that is not a literal

  /** Either every segment was handled, or an exception reached the handler
      after the warnings in `warnings` had already been shown. */
  datatype Outcome =
    | Ok(rows: seq<Row>, warnings: seq<string>)
    | Abort(error: ParseError, warnings: seq<string>)

  /** What happens at the end of a segment. */
  datatype Verdict =
    | Accept(bunchNumber: int, bananasPerBunch: int)
    | Reject
    | Crash(error: ParseError)

  /** The test `bunch_number and min_bananas_per_bunch` and the two `int()`
      calls, in the order Python evaluates them. */
  function Judge(f: Fields): Verdict {
    if f.bunchNumber == [] then Reject
    else if f.minBananasPerBunch.None? then Crash(NameError)
    else
      var m := f.minBananasPerBunch.value;
      if m == [] then Reject
      else
        match ParseInt(f.bunchNumber)
        case None => Crash(ValueError(f.bunchNumber))
        case Some(b) =>
          match ParseInt(m)
          case None => Crash(ValueError(m))
          case Some(v) => Accept(b, v)
  }

  /** The row appended for an accepted segment; `stamp` is the clock reading. */
  function RowFor(uri: string, f: Fields, b: int, v: int, stamp: int): Row {
    Row(uri, b, v, Strip(f.defectType), Strip(f.defectLevel), Strip(f.additionalDescription), stamp)
  }

  /** The state of the segment loop. */
  datatype Progress =
    | Running(fields: Fields, rows: seq<Row>, warnings: seq<string>)
    | Stopped(error: ParseError, warnings: seq<string>)

  /** `bunch.split('\n')`. */
  function Lines(seg: string): seq<string> {
    SplitOn(seg, "\n")
  }

  /** The inner loop: the lines of one segment scanned into the variables. */
  function ScanSegment(f: Fields, seg: string): Fields {
    Scan(f, Lines(seg))
  }

  /** What a segment does to the five variables. The segment loop below is
      stated for any such scan and used with `ScanSegment`; its bookkeeping
      does not depend on what the scan reads. */
  type SegmentScan = (Fields, string) -> Fields

  /** The end of a segment, once its lines have left the variables at `f`:
      a warning, an exception, or a row. The `k`-th row appended reads the
      clock as `clock(k)`. */
  function EndSegment(f: Fields, rows: seq<Row>, warnings: seq<string>, uri: string, clock: nat -> int): Progress {
    match Judge(f)
    case Reject => Running(f, rows, warnings + [MissingWarning])
    case Crash(e) => Stopped(e, warnings)
    case Accept(b, v) => Running(f, rows + [RowFor(uri, f, b, v, clock(|rows|))], warnings)
  }

  /** One iteration of the segment loop. */
  function Step(scan: SegmentScan, p: Progress, seg: string, uri: string, clock: nat -> int): Progress {
    match p
    case Stopped(_, _) => p
    case Running(f0, rows, warnings) => EndSegment(scan(f0, seg), rows, warnings, uri, clock)
  }

  /** The segment loop after its first `n` iterations over `segs`. */
  function Process(scan: SegmentScan, segs: seq<string>, n: nat, uri: string, clock: nat -> int): Progress
    requires n <= |segs|
  {
    if n == 0 then Running(Initial, [], [])
    else Step(scan, Process(scan, segs, n - 1, uri, clock), segs[n - 1], uri, clock)
  }

  /** The segments of the cleaned reply. */
  function Bunches(text: string): seq<string> {
    SplitBunches(Clean(text))
  }

  /** The whole parser. */
  function Parse(text: string, uri: string, clock: nat -> int): Outcome {
    var segs := Bunches(text);
    match Process(ScanSegment, segs, |segs|, uri, clock)
    case Running(_, rows, warnings) => Ok(rows, warnings)
    case Stopped(e, warnings) => Abort(e, warnings)
  }

  // ---------------------------------------------------------------------------
  // The loop in closed form, segment by segment

  /** The variables after the first `n` segments have been scanned. */
  function FieldsAt(scan: SegmentScan, segs: seq<string>, n: nat): Fields
    requires n <= |segs|
  {
    if n == 0 then Initial else scan(FieldsAt(scan, segs, n - 1), segs[n - 1])
  }

  /** What happens at the end of segment `j`. */
  function VerdictAt(scan: SegmentScan, segs: seq<string>, j: nat): Verdict
    requires j < |segs|
  {
    Judge(FieldsAt(scan, segs, j + 1))
  }

  /** No segment before `n` raises. */
  predicate CrashFree(scan: SegmentScan, segs: seq<string>, n: nat)
    requires n <= |segs|
  {
    forall j :: 0 <= j < n ==> !VerdictAt(scan, segs, j).Crash?
  }

  /** How many of the first `n` segments end in a warning. */
  function RejectCount(scan: SegmentScan, segs: seq<string>, n: nat): nat
    requires n <= |segs|
  {
    if n == 0 then 0
    else RejectCount(scan, segs, n - 1) + (if VerdictAt(scan, segs, n - 1) == Reject then 1 else 0)
  }

  /** The rows of the accepted segments among the first `n`, in order. */
  function RowsUpTo(scan: SegmentScan, segs: seq<string>, uri: string, clock: nat -> int, n: nat): seq<Row>
    requires n <= |segs|
  {
    if n == 0 then []
    else
      var r := RowsUpTo(scan, segs, uri, clock, n - 1);
      match VerdictAt(scan, segs, n - 1)
      case Accept(b, v) => r + [RowFor(uri, FieldsAt(scan, segs, n), b, v, clock(|r|))]
      case _ => r
  }

  /** `k` copies of the missing-field warning. */
  function Missing(k: nat): seq<string> {
    seq(k, i => MissingWarning)
  }

  /** The loop after one more segment. */
  lemma ProcessStep(scan: SegmentScan, segs: seq<string>, i: nat, uri: string, clock: nat -> int)
    requires i < |segs|
    ensures var p := Process(scan, segs, i, uri, clock);
            p.Running? ==> Process(scan, segs, i + 1, uri, clock)
                           == EndSegment(scan(p.fields, segs[i]), p.rows, p.warnings, uri, clock)
  {
  }

  /** One accepted segment appends one row and keeps the warnings. */
  lemma StepAccept(scan: SegmentScan, p: Progress, seg: string, uri: string, clock: nat -> int)
    requires p.Running? && Judge(scan(p.fields, seg)).Accept?
    ensures var f := scan(p.fields, seg);
            Step(scan, p, seg, uri, clock)
            == Running(f, p.rows + [RowFor(uri, f, Judge(f).bunchNumber, Judge(f).bananasPerBunch, clock(|p.rows|))],
                       p.warnings)
  {
  }

  /** One rejected segment appends one warning and keeps the rows. */
  lemma StepReject(scan: SegmentScan, p: Progress, seg: string, uri: string, clock: nat -> int)
    requires p.Running? && Judge(scan(p.fields, seg)) == Reject
    ensures Step(scan, p, seg, uri, clock) == Running(scan(p.fields, seg), p.rows, p.warnings + [MissingWarning])
  {
  }

  /** A segment that raises stops the loop with the warnings shown so far. */
  lemma StepCrash(scan: SegmentScan, p: Progress, seg: string, uri: string, clock: nat -> int)
    requires p.Running? && Judge(scan(p.fields, seg)).Crash?
    ensures Step(scan, p, seg, uri, clock) == Stopped(Judge(scan(p.fields, seg)).error, p.warnings)
  {
  }

  /** The closed form after an accepted segment. */
  lemma UpToAccept(scan: SegmentScan, segs: seq<string>, uri: string, clock: nat -> int, n: nat)
    requires 0 < n <= |segs| && VerdictAt(scan, segs, n - 1).Accept?
    ensures var r, v := RowsUpTo(scan, segs, uri, clock, n - 1), VerdictAt(scan, segs, n - 1);
            RowsUpTo(scan, segs, uri, clock, n)
            == r + [RowFor(uri, FieldsAt(scan, segs, n), v.bunchNumber, v.bananasPerBunch, clock(|r|))]
            && RejectCount(scan, segs, n) == RejectCount(scan, segs, n - 1)
  {
  }

  /** The closed form after a rejected segment. */
  lemma UpToReject(scan: SegmentScan, segs: seq<string>, uri: string, clock: nat -> int, n: nat)
    requires 0 < n <= |segs| && VerdictAt(scan, segs, n - 1) == Reject
    ensures RowsUpTo(scan, segs, uri, clock, n) == RowsUpTo(scan, segs, uri, clock, n - 1)
            && RejectCount(scan, segs, n) == RejectCount(scan, segs, n - 1) + 1
  {
  }

  /** While nothing raises, the loop state after `n` segments is the closed
      form: the variables as scanned so far, one row per accepted segment in
      order, one warning per rejected one. */
  lemma {:induction false} ProcessRunning(scan: SegmentScan, segs: seq<string>, uri: string, clock: nat -> int, n: nat)
    requires n <= |segs| && CrashFree(scan, segs, n)
    ensures Process(scan, segs, n, uri, clock)
            == Running(FieldsAt(scan, segs, n), RowsUpTo(scan, segs, uri, clock, n),
                       Missing(RejectCount(scan, segs, n)))
  {
    if n > 0 {
      assert CrashFree(scan, segs, n - 1);
      ProcessRunning(scan, segs, uri, clock, n - 1);
      var p := Process(scan, segs, n - 1, uri, clock);
      assert p.Running? && scan(p.fields, segs[n - 1]) == FieldsAt(scan, segs, n);
      assert Process(scan, segs, n, uri, clock) == Step(scan, p, segs[n - 1], uri, clock);
      assert !VerdictAt(scan, segs, n - 1).Crash?;
      if VerdictAt(scan, segs, n - 1).Accept? {
        StepAccept(scan, p, segs[n - 1], uri, clock);
        UpToAccept(scan, segs, uri, clock, n);
      } else {
        StepReject(scan, p, segs[n - 1], uri, clock);
        UpToReject(scan, segs, uri, clock, n);
        var k := RejectCount(scan, segs, n - 1);
        assert Missing(k) + [MissingWarning] == Missing(k + 1);
      }
    }
  }

  /** The segment that raises first stops the loop with the warnings of
      the segments before it. */
  lemma CrashStops(scan: SegmentScan, segs: seq<string>, uri: string, clock: nat -> int, j: nat)
    requires j < |segs| && CrashFree(scan, segs, j) && VerdictAt(scan, segs, j).Crash?
    ensures Process(scan, segs, j + 1, uri, clock)
            == Stopped(VerdictAt(scan, segs, j).error, Missing(RejectCount(scan, segs, j)))
  {
    ProcessRunning(scan, segs, uri, clock, j);
    var p := Process(scan, segs, j, uri, clock);
    assert p.Running? && scan(p.fields, segs[j]) == FieldsAt(scan, segs, j + 1);
    StepCrash(scan, p, segs[j], uri, clock);
    assert Process(scan, segs, j + 1, uri, clock) == Step(scan, p, segs[j], uri, clock);
  }

  /** The first segment that raises stops the loop for good: the error is
      that segment's, and the warnings shown are those of the segments
      before it. */
  lemma {:induction false} ProcessStops(scan: SegmentScan, segs: seq<string>, uri: string, clock: nat -> int, n: nat, j: nat)
    requires j < n <= |segs| && CrashFree(scan, segs, j) && VerdictAt(scan, segs, j).Crash?
    ensures Process(scan, segs, n, uri, clock)
            == Stopped(VerdictAt(scan, segs, j).error, Missing(RejectCount(scan, segs, j)))
  {
    if n == j + 1 {
      CrashStops(scan, segs, uri, clock, j);
    } else {
      ProcessStops(scan, segs, uri, clock, n - 1, j);
    }
  }

  /** Once the loop has stopped, the remaining segments change nothing. */
  lemma {:induction false} StoppedSticks(scan: SegmentScan, segs: seq<string>, uri: string, clock: nat -> int, n: nat, m: nat)
    requires n <= m <= |segs| && Process(scan, segs, n, uri, clock).Stopped?
    ensures Process(scan, segs, m, uri, clock) == Process(scan, segs, n, uri, clock)
  {
    if m > n {
      StoppedSticks(scan, segs, uri, clock, n, m - 1);
    }
  }

  /** Where some segment raises, there is a first one. */
  lemma {:induction false} FirstCrash(scan: SegmentScan, segs: seq<string>, n: nat) returns (j: nat)
    requires n <= |segs| && !CrashFree(scan, segs, n)
    ensures j < n && CrashFree(scan, segs, j) && VerdictAt(scan, segs, j).Crash?
  {
    if CrashFree(scan, segs, n - 1) {
      j := n - 1;
    } else {
      j := FirstCrash(scan, segs, n - 1);
    }
  }

  /** Without an exception every segment yields exactly one row or one
      warning. */
  lemma {:induction false} Accounting(scan: SegmentScan, segs: seq<string>, uri: string, clock: nat -> int, n: nat)
    requires n <= |segs| && CrashFree(scan, segs, n)
    ensures |RowsUpTo(scan, segs, uri, clock, n)| + RejectCount(scan, segs, n) == n
  {
    if n > 0 {
      assert CrashFree(scan, segs, n - 1);
      Accounting(scan, segs, uri, clock, n - 1);
      assert !VerdictAt(scan, segs, n - 1).Crash?;
    }
  }

  // ---------------------------------------------------------------------------
  // The loop with the real line scan

  /** The lines of the first `n` segments, in order. */
  function AllLines(segs: seq<string>, n: nat): seq<string>
    requires n <= |segs|
  {
    if n == 0 then [] else AllLines(segs, n - 1) + Lines(segs[n - 1])
  }

  /** The variables are never reset: after `n` segments they are the scan of
      every line of those segments, from the initial values. */
  lemma {:induction false} FieldsAtAllLines(segs: seq<string>, n: nat)
    requires n <= |segs|
    ensures FieldsAt(ScanSegment, segs, n) == Scan(Initial, AllLines(segs, n))
  {
    if n > 0 {
      FieldsAtAllLines(segs, n - 1);
      ScanAppend(Initial, AllLines(segs, n - 1), Lines(segs[n - 1]));
    }
  }

  /** The variables are always stripped, so the `.strip()` calls in the row
      change nothing. */
  lemma {:induction false} FieldsAtTidy(segs: seq<string>, n: nat)
    requires n <= |segs|
    ensures Tidy(FieldsAt(ScanSegment, segs, n))
  {
    if n > 0 {
      FieldsAtTidy(segs, n - 1);
      ScanTidy(FieldsAt(ScanSegment, segs, n - 1), Lines(segs[n - 1]));
    }
  }

  /** The row for segment `j` when it is accepted: the caller's URI, the
      integers `int()` reads from the two count strings, the text variables as
      they stand (stripping them again changes nothing) and the clock reading
      of its position. */
  lemma AcceptedRow(segs: seq<string>, uri: string, clock: nat -> int, j: nat)
    requires j < |segs| && VerdictAt(ScanSegment, segs, j).Accept?
    ensures var f, r, v := FieldsAt(ScanSegment, segs, j + 1), RowsUpTo(ScanSegment, segs, uri, clock, j),
                           VerdictAt(ScanSegment, segs, j);
            f.minBananasPerBunch.Some?
            && ParseInt(f.bunchNumber) == Some(v.bunchNumber)
            && ParseInt(f.minBananasPerBunch.value) == Some(v.bananasPerBunch)
            && RowsUpTo(ScanSegment, segs, uri, clock, j + 1)
               == r + [Row(uri, v.bunchNumber, v.bananasPerBunch,
                           f.defectType, f.defectLevel, f.additionalDescription, clock(|r|))]
  {
    FieldsAtTidy(segs, j + 1);
    var f := FieldsAt(ScanSegment, segs, j + 1);
    StripStripped(f.defectType);
    StripStripped(f.defectLevel);
    StripStripped(f.additionalDescription);
  }

  /** Every row carries the caller's image URI, the clock reading of its
      position, and stripped text fields. */
  lemma {:induction false} RowsShape(segs: seq<string>, uri: string, clock: nat -> int, n: nat)
    requires n <= |segs|
    ensures var rows := RowsUpTo(ScanSegment, segs, uri, clock, n);
            forall k :: 0 <= k < |rows| ==>
              rows[k].imageUri == uri && rows[k].timestamp == clock(k)
              && IsStripped(rows[k].defectType) && IsStripped(rows[k].defectLevel)
              && IsStripped(rows[k].additionalDescription)
  {
    if n > 0 {
      RowsShape(segs, uri, clock, n - 1);
      if VerdictAt(ScanSegment, segs, n - 1).Accept? {
        AcceptedRow(segs, uri, clock, n - 1);
        FieldsAtTidy(segs, n);
      }
    }
  }

  // ---------------------------------------------------------------------------
  // What one segment does

  /** The verdict in terms of the variables: a warning when either count
      string is empty, `NameError` when the minimum was never assigned and the
      bunch number is set, `ValueError` on the first count that is not an
      integer literal, and a row otherwise. */
  lemma JudgeCases(f: Fields)
    ensures Judge(f) == Reject
            <==> f.bunchNumber == [] || f.minBananasPerBunch == Some([])
    ensures Judge(f) == Crash(NameError)
            <==> f.bunchNumber != [] && f.minBananasPerBunch == None
    ensures Judge(f).Accept?
            <==> f.bunchNumber != [] && f.minBananasPerBunch.Some? && f.minBananasPerBunch.value != []
                 && IsIntLiteral(f.bunchNumber) && IsIntLiteral(f.minBananasPerBunch.value)
    ensures Judge(f).Crash? && Judge(f).error.ValueError?
            ==> !IsIntLiteral(Judge(f).error.literal)
                && (Judge(f).error.literal == f.bunchNumber
                    || (IsIntLiteral(f.bunchNumber) && Some(Judge(f).error.literal) == f.minBananasPerBunch))
  {
  }

  /** The variables carry over between segments: a segment with no line
      labelled for a variable leaves it as the previous segments set it. */
  lemma CarryOver(segs: seq<string>, j: nat, l: Label)
    requires j < |segs| && !Labelled(Lines(segs[j]), l)
    ensures Get(FieldsAt(ScanSegment, segs, j + 1), l) == Get(FieldsAt(ScanSegment, segs, j), l)
  {
    ScanUntouched(FieldsAt(ScanSegment, segs, j), Lines(segs[j]), l);
  }

  /** A segment raises `NameError` exactly when its bunch number is set and no
      line so far, in this segment or an earlier one, was labelled for the
      minimum. */
  lemma NameErrorAt(segs: seq<string>, j: nat)
    requires j < |segs|
    ensures VerdictAt(ScanSegment, segs, j) == Crash(NameError)
            <==> FieldsAt(ScanSegment, segs, j + 1).bunchNumber != []
                 && !Labelled(AllLines(segs, j + 1), MinimumBananas)
  {
    FieldsAtAllLines(segs, j + 1);
    ScanAssigned(Initial, AllLines(segs, j + 1));
    JudgeCases(FieldsAt(ScanSegment, segs, j + 1));
  }

  // ---------------------------------------------------------------------------
  // The whole parser

  /** Without an exception the parser returns the rows of the accepted
      segments in order and one warning per rejected segment, one of the two
      for every segment. */
  lemma ParseOk(text: string, uri: string, clock: nat -> int)
    requires CrashFree(ScanSegment, Bunches(text), |Bunches(text)|)
    ensures var segs := Bunches(text);
            Parse(text, uri, clock)
            == Ok(RowsUpTo(ScanSegment, segs, uri, clock, |segs|), Missing(RejectCount(ScanSegment, segs, |segs|)))
            && |Parse(text, uri, clock).rows| + |Parse(text, uri, clock).warnings| == |segs|
  {
    var segs := Bunches(text);
    ProcessRunning(ScanSegment, segs, uri, clock, |segs|);
    Accounting(ScanSegment, segs, uri, clock, |segs|);
  }

  /** The first segment that raises aborts the whole parse: no row survives,
      and the warnings shown are those of the segments before it. */
  lemma ParseAborts(text: string, uri: string, clock: nat -> int, j: nat)
    requires j < |Bunches(text)| && CrashFree(ScanSegment, Bunches(text), j)
    requires VerdictAt(ScanSegment, Bunches(text), j).Crash?
    ensures Parse(text, uri, clock)
            == Abort(VerdictAt(ScanSegment, Bunches(text), j).error,
                     Missing(RejectCount(ScanSegment, Bunches(text), j)))
  {
    var segs := Bunches(text);
    ProcessStops(ScanSegment, segs, uri, clock, |segs|, j);
  }

  /** The parse aborts exactly when some segment raises. */
  lemma ParseAbortIff(text: string, uri: string, clock: nat -> int)
    ensures Parse(text, uri, clock).Abort? <==> !CrashFree(ScanSegment, Bunches(text), |Bunches(text)|)
  {
    var segs := Bunches(text);
    if CrashFree(ScanSegment, segs, |segs|) {
      ParseOk(text, uri, clock);
    } else {
      var j := FirstCrash(ScanSegment, segs, |segs|);
      ParseAborts(text, uri, clock, j);
    }
  }

  /** A loop that has stopped decides the outcome: the parse aborts with
      its error and warnings. */
  lemma StoppedParse(text: string, uri: string, clock: nat -> int, n: nat)
    requires n <= |Bunches(text)| && Process(ScanSegment, Bunches(text), n, uri, clock).Stopped?
    ensures var p := Process(ScanSegment, Bunches(text), n, uri, clock);
            Parse(text, uri, clock) == Abort(p.error, p.warnings)
  {
    StoppedSticks(ScanSegment, Bunches(text), uri, clock, n, |Bunches(text)|);
  }

  // ---------------------------------------------------------------------------
  // The loop as the source runs it

  /** The inner loop over the lines of one segment: the five variables,
      starting from `fields`, are updated line by line. */
  method ScanLines(bunch: string, fields: Fields) returns (result: Fields)
    ensures result == ScanSegment(fields, bunch)
  {
    var lines := SplitOn(bunch, "\n");
    var bunchNumber, minBananasPerBunch := fields.bunchNumber, fields.minBananasPerBunch;
    var defectType, defectLevel := fields.defectType, fields.defectLevel;
    var additionalDescription := fields.additionalDescription;
    for k := 0 to |lines|
      invariant Fields(bunchNumber, minBananasPerBunch, defectType, defectLevel, additionalDescription)
                == Scan(fields, lines[..k])
    {
      var line := lines[k];
      assert Scan(fields, lines[..k + 1]) == ApplyLine(Scan(fields, lines[..k]), line) by {
        assert lines[..k + 1][..k] == lines[..k];
      }
      if StartsWith(line, Text(NumberOfBunches)) {
        bunchNumber := Strip(RemoveAll(line, Text(NumberOfBunches)));
      } else if StartsWith(line, Text(MinimumBananas)) {
        minBananasPerBunch := Some(Strip(RemoveAll(line, Text(MinimumBananas))));
      } else if StartsWith(line, Text(DefectType)) {
        defectType := Strip(RemoveAll(line, Text(DefectType)));
      } else if StartsWith(line, Text(LevelOfDefect)) {
        defectLevel := Strip(RemoveAll(line, Text(LevelOfDefect)));
      } else if StartsWith(line, Text(AdditionalDescription)) {
        additionalDescription := Strip(RemoveAll(line, Text(AdditionalDescription)));
      }
    }
    assert lines[..|lines|] == lines;
    return Fields(bunchNumber, minBananasPerBunch, defectType, defectLevel, additionalDescription);
  }

  /** The block after the inner loop: the test on the two count strings,
      the two `int()` calls and the row or the warning. */
  method FinishSegment(fields: Fields, rows: seq<Row>, warnings: seq<string>, imageUri: string, clock: nat -> int)
    returns (next: Progress)
    ensures next == EndSegment(fields, rows, warnings, imageUri, clock)
  {
    var bunchNumber, minBananasPerBunch := fields.bunchNumber, fields.minBananasPerBunch;
    if bunchNumber == [] {
      return Running(fields, rows, warnings + [MissingWarning]);
    } else if minBananasPerBunch.None? {
      return Stopped(NameError, warnings);
    } else if minBananasPerBunch.value == [] {
      return Running(fields, rows, warnings + [MissingWarning]);
    }
    var b := ParseInt(bunchNumber);
    if b.None? {
      return Stopped(ValueError(bunchNumber), warnings);
    }
    var v := ParseInt(minBananasPerBunch.value);
    if v.None? {
      return Stopped(ValueError(minBananasPerBunch.value), warnings);
    }
    var row := Row(imageUri, b.value, v.value, Strip(fields.defectType), Strip(fields.defectLevel),
                   Strip(fields.additionalDescription), clock(|rows|));
    return Running(fields, rows + [row], warnings);
  }

  /** The clean-up, the split and the nested loops over segments and lines,
      with the five variables and `rows_to_insert` updated as the loops run.
      An exception is a return of `Abort`. */
  method ParseResponse(responseText: string, imageUri: string, clock: nat -> int) returns (outcome: Outcome)
    ensures outcome == Parse(responseText, imageUri, clock)
  {
    var cleanedText := Clean(responseText);
    var bunches := SplitBunches(cleanedText);
    var rowsToInsert: seq<Row> := [];
    var warnings: seq<string> := [];
    var fields := Initial;
    for i := 0 to |bunches|
      invariant Process(ScanSegment, bunches, i, imageUri, clock) == Running(fields, rowsToInsert, warnings)
    {
      fields := ScanLines(bunches[i], fields);
      var next := FinishSegment(fields, rowsToInsert, warnings, imageUri, clock);
      ProcessStep(ScanSegment, bunches, i, imageUri, clock);
      if next.Stopped? {
        StoppedParse(responseText, imageUri, clock, i + 1);
        return Abort(next.error, next.warnings);
      }
      fields, rowsToInsert, warnings := next.fields, next.rows, next.warnings;
    }
    return Ok(rowsToInsert, warnings);
  }
}
