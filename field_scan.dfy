/** The line scan of one segment: each line that starts with one of five
    labels overwrites the matching field with the rest of the line, trimmed.
    The five fields live outside the segment loop, so a scan starts from
    whatever the previous segments left behind. */
module FieldScan {
  import opened StrOps
  import opened Wrappers

  /** The five labels, in the order the `if`/`elif` chain tests them. */
  datatype Label = NumberOfBunches | MinimumBananas | DefectType | LevelOfDefect | AdditionalDescription

  /** The exact label text, leading and trailing space included. */
  function Text(l: Label): (t: string)
    ensures |t| > 2 && t[0] == ' '
  {
    match l
    case NumberOfBunches => " Number of Bunches: "
    case MinimumBananas => " Minimum bananas per Bunch: "
    case DefectType => " Defect Type: "
    case LevelOfDefect => " Level of Defect: "
    case AdditionalDescription => " Additional Description: "
  }

  /** The five loop-carried variables. `bunch_number`, `defect_type`,
      `defect_level` and `additional_description` start as the empty string;
      `min_bananas_per_bunch` starts unassigned (`None`): only a variable of
      another name, `bananas_per_bunch`, is initialised. */
  datatype Fields = Fields(
    bunchNumber: string,
    minBananasPerBunch: Option<string>,
    defectType: string,
    defectLevel: string,
    additionalDescription: string)

  const Initial: Fields := Fields("", None, "", "", "")

  /** The variable a label writes, `None` while it is unassigned. */
  function Get(f: Fields, l: Label): Option<string> {
    match l
    case NumberOfBunches => Some(f.bunchNumber)
    case MinimumBananas => f.minBananasPerBunch
    case DefectType => Some(f.defectType)
    case LevelOfDefect => Some(f.defectLevel)
    case AdditionalDescription => Some(f.additionalDescription)
  }

  /** The value a labelled line carries: every occurrence of the label
      removed, then whitespace stripped from both ends. */
  function ValueOf(line: string, l: Label): (v: string)
    ensures IsStripped(v) && |v| <= |line|
  {
    Strip(RemoveAll(line, Text(l)))
  }

  /** The `if`/`elif` chain for one line. */
  function ApplyLine(f: Fields, line: string): Fields {
    if StartsWith(line, Text(NumberOfBunches)) then
      f.(bunchNumber := ValueOf(line, NumberOfBunches))
    else if StartsWith(line, Text(MinimumBananas)) then
      f.(minBananasPerBunch := Some(ValueOf(line, MinimumBananas)))
    else if StartsWith(line, Text(DefectType)) then
      f.(defectType := ValueOf(line, DefectType))
    else if StartsWith(line, Text(LevelOfDefect)) then
      f.(defectLevel := ValueOf(line, LevelOfDefect))
    else if StartsWith(line, Text(AdditionalDescription)) then
      f.(additionalDescription := ValueOf(line, AdditionalDescription))
    else f
  }

  /** The fields after the lines of a segment have been applied in order. */
  function Scan(f: Fields, lines: seq<string>): Fields
    decreases |lines|
  {
    if lines == [] then f else ApplyLine(Scan(f, lines[..|lines| - 1]), lines[|lines| - 1])
  }

  /** Some line of the run starts with label `l`. */
  predicate Labelled(lines: seq<string>, l: Label) {
    exists j :: 0 <= j < |lines| && StartsWith(lines[j], Text(l))
  }

  /** Every assigned field is free of surrounding whitespace. */
  predicate Tidy(f: Fields) {
    IsStripped(f.bunchNumber) && IsStripped(f.defectType) && IsStripped(f.defectLevel)
    && IsStripped(f.additionalDescription)
    && (f.minBananasPerBunch.Some? ==> IsStripped(f.minBananasPerBunch.value))
  }

  // ---------------------------------------------------------------------------
  // One line

  /** The labels differ in their second character, so no line starts with two
      of them. */
  lemma LabelsExclusive(line: string, l: Label, m: Label)
    requires StartsWith(line, Text(l)) && StartsWith(line, Text(m))
    ensures l == m
  {
    assert line[..|Text(l)|][1] == line[1] == line[..|Text(m)|][1];
  }

  /** A line writes the field of the label it starts with, and only that one;
      a line that starts with no label changes nothing. */
  lemma ApplyLineEffect(f: Fields, line: string, l: Label)
    ensures Get(ApplyLine(f, line), l)
            == if StartsWith(line, Text(l)) then Some(ValueOf(line, l)) else Get(f, l)
  {
    var all := [NumberOfBunches, MinimumBananas, DefectType, LevelOfDefect, AdditionalDescription];
    forall m | m in all && StartsWith(line, Text(m)) && StartsWith(line, Text(l))
      ensures m == l
    {
      LabelsExclusive(line, l, m);
    }
  }

  /** At most one field changes per line. */
  lemma ApplyLineOneField(f: Fields, line: string, l: Label, m: Label)
    requires Get(ApplyLine(f, line), l) != Get(f, l) && Get(ApplyLine(f, line), m) != Get(f, m)
    ensures l == m && StartsWith(line, Text(l))
  {
    ApplyLineEffect(f, line, l);
    ApplyLineEffect(f, line, m);
    LabelsExclusive(line, l, m);
  }

  /** Values written by a line are already stripped. */
  lemma ApplyLineTidy(f: Fields, line: string)
    requires Tidy(f)
    ensures Tidy(ApplyLine(f, line))
  {
  }

  // ---------------------------------------------------------------------------
  // A run of lines

  /** Scanning two runs of lines is scanning the first, then the second from
      where the first left the fields. */
  lemma {:induction false} ScanAppend(f: Fields, a: seq<string>, b: seq<string>)
    ensures Scan(f, a + b) == Scan(Scan(f, a), b)
    decreases |b|
  {
    if b == [] {
      assert a + b == a;
    } else {
      var ab := a + b;
      assert ab[..|ab| - 1] == a + b[..|b| - 1];
      assert ab[|ab| - 1] == b[|b| - 1];
      ScanAppend(f, a, b[..|b| - 1]);
    }
  }

  /** A field no line of the run is labelled for keeps its value. */
  lemma {:induction false} ScanUntouched(f: Fields, lines: seq<string>, l: Label)
    requires forall j :: 0 <= j < |lines| ==> !StartsWith(lines[j], Text(l))
    ensures Get(Scan(f, lines), l) == Get(f, l)
    decreases |lines|
  {
    if lines != [] {
      var init := lines[..|lines| - 1];
      assert forall j :: 0 <= j < |init| ==> init[j] == lines[j];
      ScanUntouched(f, init, l);
      ApplyLineEffect(Scan(f, init), lines[|lines| - 1], l);
    }
  }

  /** The last line labelled for a field decides its value: the last write
      wins. */
  lemma {:induction false} ScanLastWins(f: Fields, lines: seq<string>, l: Label, i: nat)
    requires i < |lines| && StartsWith(lines[i], Text(l))
    requires forall j :: i < j < |lines| ==> !StartsWith(lines[j], Text(l))
    ensures Get(Scan(f, lines), l) == Some(ValueOf(lines[i], l))
    decreases |lines|
  {
    var init := lines[..|lines| - 1];
    ApplyLineEffect(Scan(f, init), lines[|lines| - 1], l);
    if i < |lines| - 1 {
      assert forall j :: i < j < |init| ==> init[j] == lines[j];
      ScanLastWins(f, init, l, i);
    }
  }

  /** Scanning keeps every field stripped. */
  lemma {:induction false} ScanTidy(f: Fields, lines: seq<string>)
    requires Tidy(f)
    ensures Tidy(Scan(f, lines))
    decreases |lines|
  {
    if lines != [] {
      ScanTidy(f, lines[..|lines| - 1]);
      ApplyLineTidy(Scan(f, lines[..|lines| - 1]), lines[|lines| - 1]);
    }
  }

  /** `min_bananas_per_bunch` is assigned after a run of lines exactly when it
      was assigned before or some line of the run is labelled for it. */
  lemma {:induction false} ScanAssigned(f: Fields, lines: seq<string>)
    ensures Scan(f, lines).minBananasPerBunch.Some?
            <==> f.minBananasPerBunch.Some? || Labelled(lines, MinimumBananas)
    decreases |lines|
  {
    if lines != [] {
      var init, last := lines[..|lines| - 1], lines[|lines| - 1];
      ScanAssigned(f, init);
      ApplyLineEffect(Scan(f, init), last, MinimumBananas);
      assert forall j :: 0 <= j < |init| ==> init[j] == lines[j];
      if Labelled(lines, MinimumBananas) {
        var j :| 0 <= j < |lines| && StartsWith(lines[j], Text(MinimumBananas));
        assert j == |lines| - 1 || StartsWith(init[j], Text(MinimumBananas));
      }
    }
  }
}
