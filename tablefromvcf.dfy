/** scripts/tablefromvcf.py: tabulate the variant calls of a directory of
  LoFreq VCF files (`*_lofreq.vcf`) and iVar TSV files (`*_variants.tsv`) as
  one CSV table with a column header and one row per call.

  The directory listing is given as a sequence of files, each a name and the
  lines that iterating over the open file yields. The output is the sequence
  of strings passed to `fileout.write`.
 */
module TableFromVcf {
  import opened Results
  import opened Text
  import opened Numbers
  import opened Runs

  /** The first string written, before any file is opened. */
  const Header: string := "Sample,Caller,Region,Position,Ref,Alt,Ref_Reads,Alt_Reads,Proportion,Basic_Pass\n"

  const LofreqSuffix: string := "_lofreq.vcf"
  const IvarSuffix: string := "_variants.tsv"

  /** `basicpassreads`: the least alternate read count of a basic pass. */
  const BasicPassReads: int := 100

  /** `basicpassproportion = 0.05`, as the fraction 1/20. */
  const PassProportionNum: nat := 1
  const PassProportionDen: nat := 20

  /** One entry of the listing: its name and its lines. */
  datatype CallsFile = CallsFile(name: string, lines: seq<string>)

  /** `str(b)` for a Python `bool`. */
  function ShowBool(b: bool): string {
    if b then "True" else "False"
  }

  // ---------------------------------------------------------------- LoFreq

  /** What lines 42-45 read from the INFO column: the AF text and the
      comma-separated DP4 strand counts. */
  datatype LofreqInfo = LofreqInfo(proportion: string, dp4: seq<string>)

  /** Lines 42-43 and the `split` part of 44: `infofield[1].split("=")[1]`
      and `infofield[3].split("=")[1].split(",")`, or the IndexError of the
      first entry that is missing, in evaluation order. */
  function ReadInfo(info: string): Result<LofreqInfo> {
    var entries := Split(info, ";");
    if |entries| < 2 then Err(IndexError)
    else
      var af := Split(entries[1], "=");
      if |af| < 2 then Err(IndexError)
      else if |entries| < 4 then Err(IndexError)
      else
        var dp4 := Split(entries[3], "=");
        if |dp4| < 2 then Err(IndexError)
        else Ok(LofreqInfo(af[1], Split(dp4[1], ",")))
  }

  /** Lines 44-45: `int(dp4[0]) + int(dp4[1])` and `int(dp4[2]) + int(dp4[3])`. */
  function ReadCounts(dp4: seq<string>): Result<(int, int)> {
    var v :- ReadInts(dp4, 4);
    Ok((v[0] + v[1], v[2] + v[3]))
  }

  /** `altreads >= basicpassreads and float(proportion) >= basicpassproportion`;
      `float` is evaluated, and may raise, only when the first test holds. */
  function LofreqPass(altReads: int, proportion: string): Result<bool> {
    if altReads < BasicPassReads then Ok(false)
    else
      var p :- FloatOf(proportion);
      Ok(AtLeast(p, PassProportionNum, PassProportionDen))
  }

  /** The values lines 37-46 extract from one LoFreq data line. */
  datatype LofreqCall = LofreqCall(
    region: string, position: string, ref: string, alt: string,
    refReads: int, altReads: int, proportion: string, pass: bool)

  /** Lines 37-46: split the line into columns and read the call, or the
      exception the first failing index or conversion raises. */
  function ReadLofreq(line: string): Result<LofreqCall> {
    var cols := Columns(line);
    if |cols| < 8 then Err(IndexError)
    else
      var info :- ReadInfo(cols[7]);
      var counts :- ReadCounts(info.dp4);
      var pass :- LofreqPass(counts.1, info.proportion);
      Ok(LofreqCall(cols[0], cols[1], cols[3], cols[4], counts.0, counts.1, info.proportion, pass))
  }

  /** The list line 47 joins: the sample and caller, the call's values, and
      a final `"\n"`. */
  function LofreqFields(sample: string, call: LofreqCall): seq<string> {
    [sample, "lofreq", call.region, call.position, call.ref, call.alt,
     ShowInt(call.refReads), ShowInt(call.altReads), call.proportion, ShowBool(call.pass), "\n"]
  }

  /** The row written for one LoFreq data line: `",".join([...,"\n"])`. */
  function LofreqRow(sample: string, line: string): Result<string> {
    var call :- ReadLofreq(line);
    Ok(Join(LofreqFields(sample, call), ","))
  }

  /** The body of `for line in filein` for a LoFreq file: header lines write
      nothing, every other line writes its row. */
  function LofreqStep(sample: string, line: string): Result<seq<string>> {
    if |line| == 0 then Err(IndexError)
    else if line[0] == '#' then Ok([])
    else
      var row :- LofreqRow(sample, line);
      Ok([row])
  }

  function LofreqStepFn(sample: string): string -> Result<seq<string>> {
    line => LofreqStep(sample, line)
  }

  function LofreqRowFn(sample: string): string -> Result<string> {
    line => LofreqRow(sample, line)
  }

  /** The step for a line, in terms of the row built for it. */
  lemma LofreqStepOfRow(sample: string, line: string)
    ensures LofreqStepFn(sample)(line) ==
      if |line| == 0 then Err(IndexError)
      else if line[0] == '#' then Ok([])
      else match LofreqRowFn(sample)(line)
        case Ok(row) => Ok([row])
        case Err(e) => Err(e)
  {
  }

  /** All that one LoFreq file contributes. */
  function LofreqLines(sample: string, lines: seq<string>): Run {
    Collect(LofreqStepFn(sample), lines)
  }

  /** The lines that are not header lines, in order. */
  function DataLines(lines: seq<string>): seq<string>
    decreases |lines|
  {
    if |lines| == 0 then []
    else DataLines(lines[..|lines| - 1]) + (if IsHeader(lines[|lines| - 1]) then [] else [lines[|lines| - 1]])
  }

  // ------------------------------------------------------------------ iVar

  /** The values lines 55-63 extract from one iVar line. */
  datatype IvarCall = IvarCall(
    region: string, position: string, ref: string, alt: string,
    refReads: int, altReads: int, pass: bool)

  /** Lines 55-63: split the line into columns and read the call, or the
      exception the first failing index, conversion or division raises. */
  function ReadIvar(line: string): Result<IvarCall> {
    var cols := Columns(line);
    if |cols| < 5 then Err(IndexError)
    else
      var refReads :- IntOf(cols[4]);
      if |cols| < 8 then Err(IndexError)
      else
        var altReads :- IntOf(cols[7]);
        if altReads + refReads == 0 then Err(ZeroDivisionError)
        else if |cols| < 14 then Err(IndexError)
        else
          var pass := cols[13] != "" && altReads >= BasicPassReads
                      && RatioAtLeast(altReads, altReads + refReads, PassProportionNum, PassProportionDen);
          Ok(IvarCall(cols[0], cols[1], cols[2], cols[3], refReads, altReads, pass))
  }

  /** The list line 64 joins. `showProportion(alt, ref)` is Python's
      `str(float(alt) / (float(alt) + float(ref)))`. */
  function IvarFields(sample: string, call: IvarCall, showProportion: (int, int) -> string): seq<string> {
    [sample, "ivar", call.region, call.position, call.ref, call.alt,
     ShowInt(call.refReads), ShowInt(call.altReads), showProportion(call.altReads, call.refReads), ShowBool(call.pass)]
  }

  /** The row written for one iVar line: `",".join([...]) + "\n"`. */
  function IvarRow(sample: string, line: string, showProportion: (int, int) -> string): Result<string> {
    var call :- ReadIvar(line);
    Ok(Join(IvarFields(sample, call, showProportion), ",") + "\n")
  }

  function IvarStep(sample: string, line: string, showProportion: (int, int) -> string): Result<seq<string>> {
    var row :- IvarRow(sample, line, showProportion);
    Ok([row])
  }

  function IvarStepFn(sample: string, showProportion: (int, int) -> string): string -> Result<seq<string>> {
    line => IvarStep(sample, line, showProportion)
  }

  function IvarRowFn(sample: string, showProportion: (int, int) -> string): string -> Result<string> {
    line => IvarRow(sample, line, showProportion)
  }

  /** The step for a line, in terms of the row built for it. */
  lemma IvarStepOfRow(sample: string, line: string, showProportion: (int, int) -> string)
    ensures IvarStepFn(sample, showProportion)(line) ==
      match IvarRowFn(sample, showProportion)(line)
      case Ok(row) => Ok([row])
      case Err(e) => Err(e)
  {
  }

  /** The lines left after `filein.readline()` has consumed the first one. */
  function AfterHeader(lines: seq<string>): seq<string> {
    if |lines| == 0 then [] else lines[1..]
  }

  /** All that one iVar file contributes. */
  function IvarLines(sample: string, lines: seq<string>, showProportion: (int, int) -> string): Run {
    Collect(IvarStepFn(sample, showProportion), AfterHeader(lines))
  }

  // ----------------------------------------------------------- whole table

  /** One listing entry: the LoFreq branch if the name contains the LoFreq
      suffix, then the iVar branch if it contains the iVar suffix. */
  function FileRun(file: CallsFile, showProportion: (int, int) -> string): Run {
    Then(
      if Contains(file.name, LofreqSuffix) then LofreqLines(RemoveAll(file.name, LofreqSuffix), file.lines) else Done,
      if Contains(file.name, IvarSuffix) then IvarLines(RemoveAll(file.name, IvarSuffix), file.lines, showProportion) else Done)
  }

  /** The whole script: the header, then every entry in listing order. */
  function Table(files: seq<CallsFile>, showProportion: (int, int) -> string): Run
    decreases |files|
  {
    if |files| == 0 then Run([Header], None)
    else Then(Table(files[..|files| - 1], showProportion), FileRun(files[|files| - 1], showProportion))
  }

  // ------------------------------------------------------------- the loops

  /** Lines 34-47: the loop over one LoFreq file. */
  method WriteLofreq(sample: string, lines: seq<string>, before: seq<string>)
    returns (written: seq<string>, failure: Option<Error>)
    ensures Run(written, failure) == Then(Run(before, None), LofreqLines(sample, lines))
  {
    written, failure := before, None;
    var step := LofreqStepFn(sample);
    var rowOf := LofreqRowFn(sample);
    for j := 0 to |lines|
      invariant Collect(step, lines[..j]).failure == None
      invariant written == before + Collect(step, lines[..j]).written
    {
      var line := lines[j];
      LofreqStepOfRow(sample, line);
      if |line| == 0 {
        // `line[0]` raises
        failure := Some(IndexError);
        CollectFailsAt(step, lines, j);
        return;
      }
      if line[0] == '#' {
        CollectAppend(step, lines, j);
        continue;
      }
      var row := rowOf(line);
      if row.Err? {
        failure := Some(row.error);
        CollectFailsAt(step, lines, j);
        return;
      }
      CollectAppend(step, lines, j);
      written := written + [row.value];
    }
    assert lines[..|lines|] == lines;
  }

  /** Lines 53-64: skip the first line, then the loop over the rest. */
  method WriteIvar(sample: string, lines: seq<string>, showProportion: (int, int) -> string, before: seq<string>)
    returns (written: seq<string>, failure: Option<Error>)
    ensures Run(written, failure) == Then(Run(before, None), IvarLines(sample, lines, showProportion))
  {
    written, failure := before, None;
    var body := AfterHeader(lines);
    var step := IvarStepFn(sample, showProportion);
    for j := 0 to |body|
      invariant Collect(step, body[..j]).failure == None
      invariant written == before + Collect(step, body[..j]).written
    {
      var row := step(body[j]);
      if row.Err? {
        failure := Some(row.error);
        CollectFailsAt(step, body, j);
        return;
      }
      CollectAppend(step, body, j);
      written := written + row.value;
    }
    assert body[..|body|] == body;
  }

  /** Lines 27-65: the header, then each listing entry through the branches
      its name selects; the first exception ends the script. */
  method Tabulate(files: seq<CallsFile>, showProportion: (int, int) -> string)
    returns (written: seq<string>, failure: Option<Error>)
    ensures Run(written, failure) == Table(files, showProportion)
    ensures |written| >= 1 && written[0] == Header
  {
    written, failure := [Header], None;
    for i := 0 to |files|
      invariant failure == None
      invariant Run(written, None) == Table(files[..i], showProportion)
      invariant |written| >= 1 && written[0] == Header
    {
      assert files[..i + 1][..i] == files[..i];
      var file := files[i];
      ghost var start := Run(written, None);
      ghost var lofreq := Done;
      if Contains(file.name, LofreqSuffix) {
        lofreq := LofreqLines(RemoveAll(file.name, LofreqSuffix), file.lines);
        written, failure := WriteLofreq(RemoveAll(file.name, LofreqSuffix), file.lines, written);
        if failure.Some? {
          assert FileRun(file, showProportion) == lofreq;
          assert Table(files[..i + 1], showProportion) == Run(written, failure);
          TableStopsAtFailure(files, i + 1, showProportion);
          return;
        }
      }
      ghost var mid := Run(written, None);
      assert mid == Then(start, lofreq);
      ghost var ivar := Done;
      if Contains(file.name, IvarSuffix) {
        ivar := IvarLines(RemoveAll(file.name, IvarSuffix), file.lines, showProportion);
        written, failure := WriteIvar(RemoveAll(file.name, IvarSuffix), file.lines, showProportion, written);
      }
      assert Run(written, failure) == Then(mid, ivar);
      assert FileRun(file, showProportion) == Then(lofreq, ivar);
      ThenAssociative(start, lofreq, ivar);
      assert Run(written, failure) == Table(files[..i + 1], showProportion);
      if failure.Some? {
        TableStopsAtFailure(files, i + 1, showProportion);
        return;
      }
    }
    assert files[..|files|] == files;
  }

  // ------------------------------------------------------------ properties

  /** An exception in one entry ends the table there. */
  lemma {:induction false} TableStopsAtFailure(files: seq<CallsFile>, i: nat, showProportion: (int, int) -> string)
    requires i <= |files|
    requires Table(files[..i], showProportion).failure.Some?
    ensures Table(files, showProportion) == Table(files[..i], showProportion)
    decreases |files| - i
  {
    if i < |files| {
      assert files[..i + 1][..i] == files[..i];
      TableStopsAtFailure(files, i + 1, showProportion);
    } else {
      assert files[..i] == files;
    }
  }

  /** The header line is written first, whatever the files hold and whether
      or not the script later raises. */
  lemma {:induction false} TableStartsWithHeader(files: seq<CallsFile>, showProportion: (int, int) -> string)
    ensures |Table(files, showProportion).written| >= 1
    ensures Table(files, showProportion).written[0] == Header
    decreases |files|
  {
    if |files| > 0 {
      TableStartsWithHeader(files[..|files| - 1], showProportion);
    }
  }

  /** The output only grows: the table of a prefix of the listing is a
      prefix of the whole table. */
  lemma {:induction false} TablePrefix(files: seq<CallsFile>, i: nat, showProportion: (int, int) -> string)
    requires i <= |files|
    ensures Table(files[..i], showProportion).written <= Table(files, showProportion).written
    decreases |files| - i
  {
    if i < |files| {
      assert files[..i + 1][..i] == files[..i];
      TablePrefix(files, i + 1, showProportion);
    } else {
      assert files[..i] == files;
    }
  }

  /** A listing entry whose name has neither suffix is never opened. */
  lemma TableSkipsOtherFiles(files: seq<CallsFile>, file: CallsFile, showProportion: (int, int) -> string)
    requires !Contains(file.name, LofreqSuffix) && !Contains(file.name, IvarSuffix)
    ensures Table(files + [file], showProportion) == Table(files, showProportion)
  {
    assert (files + [file])[..|files|] == files;
  }

  /** An entry whose name has both suffixes goes through both branches: its
      LoFreq rows, then (unless that raised) its iVar rows, each with the
      sample name that removing that branch's suffix leaves. */
  lemma FileRunBothBranches(file: CallsFile, showProportion: (int, int) -> string)
    requires Contains(file.name, LofreqSuffix) && Contains(file.name, IvarSuffix)
    ensures var lofreq := LofreqLines(RemoveAll(file.name, LofreqSuffix), file.lines);
      var ivar := IvarLines(RemoveAll(file.name, IvarSuffix), file.lines, showProportion);
      var r := FileRun(file, showProportion);
      r.written == lofreq.written + (if lofreq.failure.None? then ivar.written else [])
      && r.failure == (if lofreq.failure.None? then ivar.failure else lofreq.failure)
  {
  }

  /** The usual file name, a sample name that does not contain the suffix
      followed by the suffix, gives back exactly that sample name. Neither
      suffix can overlap itself (its `_` occurs only at its start), so the
      only occurrence `split` finds is the final one. */
  lemma SampleName(stem: string, suffix: string)
    requires suffix == LofreqSuffix || suffix == IvarSuffix
    requires !Contains(stem, suffix)
    ensures Contains(stem + suffix, suffix)
    ensures RemoveAll(stem + suffix, suffix) == stem
  {
    var name := stem + suffix;
    var n := |suffix|;
    assert forall d :: 1 <= d < n ==> suffix[d] != '_';
    ContainsMeansOccurs(stem, suffix);
    forall j: nat | j < |stem| ensures !OccursAt(name, suffix, j) {
      if j + n <= |stem| {
        assert name[j..j + n] == stem[j..j + n];
        assert !OccursAt(stem, suffix, j);
      } else {
        var d := |stem| - j;
        assert 1 <= d < n;
        assert j + n <= |name| ==> name[j..j + n][d] == '_' != suffix[d];
      }
    }
    assert name[|stem|..|stem| + n] == suffix;
    assert OccursAt(name, suffix, |stem|);
    var i := IndexOf(name, suffix).value;
    assert i == |stem|;
    assert name[..i] == stem && name[i + n..] == "";
    assert Split(name, suffix) == [stem] + Split("", suffix) == [stem, ""];
    assert [stem, ""][1..] == [""];
    assert Join([stem, ""], "") == stem + "" + Join([""], "") == stem;
  }

  // ------------------------------------------------------- LoFreq rows

  /** The `;`-separated entries of the INFO column (column 8). */
  function InfoEntries(line: string): seq<string>
    requires |Columns(line)| >= 8
  {
    Split(Columns(line)[7], ";")
  }

  /** Enough INFO entries for line 43 and 44, and four DP4 strand counts
      that `int` accepts. */
  predicate HasDp4(line: string) {
    |Columns(line)| >= 8 && |InfoEntries(line)| >= 4
    && |Split(InfoEntries(line)[1], "=")| >= 2
    && |Split(InfoEntries(line)[3], "=")| >= 2
    && |Dp4Entries(line)| >= 4
    && forall k :: 0 <= k < 4 ==> ParseInt(Dp4Entries(line)[k]).Some?
  }

  /** The comma-separated values in the second `=`-separated piece of the
      fourth INFO entry (the text between its first and second `=`), which in
      LoFreq output is `DP4=refF,refR,altF,altR`. */
  function Dp4Entries(line: string): seq<string>
    requires |Columns(line)| >= 8 && |InfoEntries(line)| >= 4
    requires |Split(InfoEntries(line)[3], "=")| >= 2
  {
    Split(Split(InfoEntries(line)[3], "=")[1], ",")
  }

  /** DP4 count `k`: 0 and 1 on the reference strands, 2 and 3 on the alternate. */
  function Dp4(line: string, k: nat): int
    requires HasDp4(line) && k < 4
  {
    ParseInt(Dp4Entries(line)[k]).value
  }

  /** The second `=`-separated piece of the second INFO entry (the text
      between its first and second `=`), `AF=...` in LoFreq output. */
  function AfText(line: string): string
    requires HasDp4(line)
  {
    Split(InfoEntries(line)[1], "=")[1]
  }

  /** Reading the INFO column succeeds iff it has four entries and the second
      and fourth hold an `=`; it then gives the second `=`-separated piece
      of the second entry and the comma-separated values in the second
      `=`-separated piece of the fourth. Otherwise it raises IndexError. */
  lemma ReadInfoOk(info: string)
    ensures var entries := Split(info, ";");
      ReadInfo(info).Ok? <==>
        |entries| >= 4 && |Split(entries[1], "=")| >= 2 && |Split(entries[3], "=")| >= 2
    ensures var entries := Split(info, ";");
      ReadInfo(info).Ok? ==>
        ReadInfo(info).value == LofreqInfo(Split(entries[1], "=")[1], Split(Split(entries[3], "=")[1], ","))
    ensures ReadInfo(info).Err? ==> ReadInfo(info).error == IndexError
  {
  }

  /** Reading the counts succeeds iff there are four and `int` accepts each;
      they are then the two strand sums. */
  lemma ReadCountsOk(dp4: seq<string>)
    ensures ReadCounts(dp4).Ok? <==> |dp4| >= 4 && forall k :: 0 <= k < 4 ==> ParseInt(dp4[k]).Some?
    ensures ReadCounts(dp4).Ok? ==>
      ReadCounts(dp4).value == (ParseInt(dp4[0]).value + ParseInt(dp4[1]).value,
                                ParseInt(dp4[2]).value + ParseInt(dp4[3]).value)
  {
    ReadIntsOk(dp4, 4);
  }

  /** The basic pass of a LoFreq line: `float` raises only when it is
      evaluated, and the test holds iff both comparisons do. */
  lemma LofreqPassMeaning(altReads: int, proportion: string)
    ensures LofreqPass(altReads, proportion).Err? <==> altReads >= BasicPassReads && ParseFloat(proportion).None?
    ensures LofreqPass(altReads, proportion).Ok? ==>
      (LofreqPass(altReads, proportion).value <==>
         altReads >= BasicPassReads && AtLeast(ParseFloat(proportion).value, PassProportionNum, PassProportionDen))
  {
  }

  /** A LoFreq data line yields a call iff it has eight columns, four INFO
      entries with an `=` in the second and fourth, four integer DP4 counts,
      and, when the alternate count reaches the threshold, an AF text that
      `float` accepts. */
  lemma ReadLofreqOk(line: string)
    ensures ReadLofreq(line).Ok? <==>
      HasDp4(line) && (Dp4(line, 2) + Dp4(line, 3) >= BasicPassReads ==> ParseFloat(AfText(line)).Some?)
  {
    var cols := Columns(line);
    if |cols| >= 8 {
      ReadInfoOk(cols[7]);
      if ReadInfo(cols[7]).Ok? {
        ReadCountsOk(ReadInfo(cols[7]).value.dp4);
      }
    }
  }

  /** The call read from a LoFreq line: columns 1, 2, 4 and 5; the reference
      and alternate read counts as the sums of the DP4 strand counts; the AF
      text unchanged; and a pass exactly when the alternate count is at least
      100 and the AF at least 0.05. */
  lemma ReadLofreqValue(line: string)
    requires ReadLofreq(line).Ok?
    ensures HasDp4(line)
    ensures var cols := Columns(line);
      var alt := Dp4(line, 2) + Dp4(line, 3);
      ReadLofreq(line).value == LofreqCall(cols[0], cols[1], cols[3], cols[4],
        Dp4(line, 0) + Dp4(line, 1), alt, AfText(line),
        alt >= BasicPassReads && AtLeast(ParseFloat(AfText(line)).value, PassProportionNum, PassProportionDen))
  {
    ReadLofreqOk(line);
    var cols := Columns(line);
    ReadInfoOk(cols[7]);
    var info := ReadInfo(cols[7]).value;
    assert info.dp4 == Dp4Entries(line) && info.proportion == AfText(line);
    ReadCountsOk(info.dp4);
    LofreqPassMeaning(ReadCounts(info.dp4).value.1, info.proportion);
  }

  /** A LoFreq row's fields: eleven, the last the newline itself (so the row
      ends `,\n`); the sample and caller first, then the call's values; and
      `True` exactly for a pass. */
  lemma LofreqFieldsMeaning(sample: string, call: LofreqCall)
    ensures var f := LofreqFields(sample, call);
      |f| == 11
      && f[0] == sample && f[1] == "lofreq"
      && f[2] == call.region && f[3] == call.position && f[4] == call.ref && f[5] == call.alt
      && f[8] == call.proportion
      && (f[9] == "True" <==> call.pass) && (f[9] == "False" <==> !call.pass)
      && f[10] == "\n"
  {
  }

  /** The read counts in a LoFreq row read back with `int` as the call's sums. */
  lemma LofreqCountsReadBack(sample: string, call: LofreqCall)
    ensures ParseInt(LofreqFields(sample, call)[6]) == Some(call.refReads)
    ensures ParseInt(LofreqFields(sample, call)[7]) == Some(call.altReads)
  {
    var f := LofreqFields(sample, call);
    assert f[6] == ShowInt(call.refReads) && f[7] == ShowInt(call.altReads);
    IntRoundTrip(call.refReads);
    IntRoundTrip(call.altReads);
  }

  /** A LoFreq row whose text fields hold no comma splits back on `,` into
      exactly its fields, and ends with `,\n`. */
  lemma LofreqRowReadsBack(sample: string, call: LofreqCall)
    requires NoComma(sample) && NoComma(call.region) && NoComma(call.position)
    requires NoComma(call.ref) && NoComma(call.alt) && NoComma(call.proportion)
    ensures Split(Join(LofreqFields(sample, call), ","), ",") == LofreqFields(sample, call)
    ensures var row := Join(LofreqFields(sample, call), ",");
      |row| >= 2 && row[|row| - 2..] == ",\n"
  {
    var f := LofreqFields(sample, call);
    NumberHasNoComma(call.refReads);
    NumberHasNoComma(call.altReads);
    assert forall k :: 0 <= k < |f| ==> NoComma(f[k]);
    SplitOfJoin(f, ',');
    JoinLastTwo(f, ",");
  }

  /** `s` has no `,`. */
  predicate NoComma(s: string) {
    forall j :: 0 <= j < |s| ==> s[j] != ','
  }

  lemma NumberHasNoComma(n: int)
    ensures NoComma(ShowInt(n))
  {
  }

  /** A joined text ends with the separator and the last part. */
  lemma JoinLastTwo(parts: seq<string>, sep: string)
    requires |parts| >= 2
    ensures Join(parts, sep) == Join(parts[..|parts| - 1], sep) + sep + parts[|parts| - 1]
    decreases |parts|
  {
    if |parts| > 2 {
      JoinLastTwo(parts[1..], sep);
      assert parts[1..][..|parts| - 2] == parts[1..|parts| - 1];
      assert parts[..|parts| - 1][1..] == parts[1..|parts| - 1];
    }
  }

  // --------------------------------------------------------- iVar rows

  /** An iVar line yields a call iff it has fourteen columns, `int` accepts
      columns 5 and 8, and the two counts do not sum to zero. The division
      raises ZeroDivisionError exactly when both counts read and sum to zero. */
  lemma ReadIvarOk(line: string)
    ensures var cols := Columns(line);
      ReadIvar(line).Ok? <==>
        |cols| >= 14 && ParseInt(cols[4]).Some? && ParseInt(cols[7]).Some?
        && ParseInt(cols[4]).value + ParseInt(cols[7]).value != 0
    ensures var cols := Columns(line);
      ReadIvar(line) == Err(ZeroDivisionError) <==>
        |cols| >= 8 && ParseInt(cols[4]).Some? && ParseInt(cols[7]).Some?
        && ParseInt(cols[4]).value + ParseInt(cols[7]).value == 0
  {
  }

  /** The call read from an iVar line: columns 1 to 4, the counts of columns
      5 and 8, and a pass exactly when column 14 is not empty, the alternate
      count is at least 100 and alt / (alt + ref) is at least 0.05. */
  lemma ReadIvarValue(line: string)
    requires ReadIvar(line).Ok?
    ensures var cols := Columns(line);
      |cols| >= 14 && ParseInt(cols[4]).Some? && ParseInt(cols[7]).Some?
    ensures var cols := Columns(line);
      var call := ReadIvar(line).value;
      call.region == cols[0] && call.position == cols[1] && call.ref == cols[2] && call.alt == cols[3]
      && call.refReads == ParseInt(cols[4]).value && call.altReads == ParseInt(cols[7]).value
      && call.refReads + call.altReads != 0
      && (call.pass <==>
            cols[13] != "" && call.altReads >= BasicPassReads
            && call.altReads as real / (call.altReads + call.refReads) as real
               >= PassProportionNum as real / PassProportionDen as real)
  {
    ReadIvarOk(line);
    var call := ReadIvar(line).value;
    RatioAtLeastIsExact(call.altReads, call.altReads + call.refReads, PassProportionNum, PassProportionDen);
  }

  /** With counts that are not negative, the proportion test is the integer
      inequality `20 * alt >= alt + ref`. */
  lemma IvarProportionTest(altReads: int, refReads: int)
    requires altReads >= 0 && refReads >= 0 && altReads + refReads != 0
    ensures RatioAtLeast(altReads, altReads + refReads, PassProportionNum, PassProportionDen)
            <==> 20 * altReads >= altReads + refReads
  {
  }

  /** An iVar row's fields: ten, the sample and caller first, then the call's
      values, the rendered proportion of the call's counts, and `True` exactly
      for a pass. */
  lemma IvarFieldsMeaning(sample: string, call: IvarCall, showProportion: (int, int) -> string)
    ensures var f := IvarFields(sample, call, showProportion);
      |f| == 10
      && f[0] == sample && f[1] == "ivar"
      && f[2] == call.region && f[3] == call.position && f[4] == call.ref && f[5] == call.alt
      && f[8] == showProportion(call.altReads, call.refReads)
      && (f[9] == "True" <==> call.pass) && (f[9] == "False" <==> !call.pass)
  {
  }

  /** The read counts in an iVar row read back with `int` as the call's counts. */
  lemma IvarCountsReadBack(sample: string, call: IvarCall, showProportion: (int, int) -> string)
    ensures ParseInt(IvarFields(sample, call, showProportion)[6]) == Some(call.refReads)
    ensures ParseInt(IvarFields(sample, call, showProportion)[7]) == Some(call.altReads)
  {
    var f := IvarFields(sample, call, showProportion);
    assert f[6] == ShowInt(call.refReads) && f[7] == ShowInt(call.altReads);
    IntRoundTrip(call.refReads);
    IntRoundTrip(call.altReads);
  }

  /** An iVar row ends with the newline, and when its text fields hold no
      comma the rest splits back on `,` into exactly its ten fields. */
  lemma IvarRowReadsBack(sample: string, call: IvarCall, showProportion: (int, int) -> string)
    requires NoComma(sample) && NoComma(call.region) && NoComma(call.position)
    requires NoComma(call.ref) && NoComma(call.alt) && NoComma(showProportion(call.altReads, call.refReads))
    ensures var row := Join(IvarFields(sample, call, showProportion), ",") + "\n";
      |row| >= 1 && row[|row| - 1] == '\n'
      && Split(row[..|row| - 1], ",") == IvarFields(sample, call, showProportion)
  {
    var f := IvarFields(sample, call, showProportion);
    var row := Join(f, ",") + "\n";
    NumberHasNoComma(call.refReads);
    NumberHasNoComma(call.altReads);
    assert forall k :: 0 <= k < |f| ==> NoComma(f[k]);
    SplitOfJoin(f, ',');
    assert row[..|row| - 1] == Join(f, ",");
  }

  // ------------------------------------------------------- rows per file

  /** A LoFreq file writes one row per data line, in order, and nothing for
      its header lines, up to the first line that raises: `n` lines are
      processed, the rows are those of the data lines among them, and the
      run raises iff `n` stops short of the end, with the exception of line
      `n`, which is then empty or a data line whose row cannot be built. */
  lemma {:induction false} LofreqFileRows(sample: string, lines: seq<string>) returns (n: nat)
    ensures n <= |lines|
    ensures var data := DataLines(lines[..n]);
      |LofreqLines(sample, lines).written| == |data|
      && forall k :: 0 <= k < |data| ==> LofreqRow(sample, data[k]) == Ok(LofreqLines(sample, lines).written[k])
    ensures LofreqLines(sample, lines).failure.None? <==> n == |lines|
    ensures n < |lines| ==>
      (|lines[n]| == 0 && LofreqLines(sample, lines).failure == Some(IndexError))
      || (!IsHeader(lines[n]) && LofreqRow(sample, lines[n]).Err?
          && LofreqLines(sample, lines).failure == Some(LofreqRow(sample, lines[n]).error))
    decreases |lines|
  {
    if |lines| == 0 {
      return 0;
    }
    var step := LofreqStepFn(sample);
    var init := lines[..|lines| - 1];
    var last := lines[|lines| - 1];
    var m := LofreqFileRows(sample, init);
    assert init[..m] == lines[..m];
    assert LofreqLines(sample, lines) == Then(LofreqLines(sample, init), Emit(step(last)));
    if m < |init| {
      return m;
    }
    assert init == lines[..m];
    LofreqStepOfRow(sample, last);
    if step(last).Err? {
      return m;
    }
    n := |lines|;
    assert lines[..n] == lines;
    assert DataLines(lines) == DataLines(init) + (if IsHeader(last) then [] else [last]);
  }

  /** An iVar file writes exactly one row for each line after its first, in
      order, up to the first line whose row cannot be built: the first `n`
      lines after the header give the rows, and the run raises iff `n` stops
      short of the end, with the exception of line `n + 1`. */
  lemma IvarFileRows(sample: string, lines: seq<string>, showProportion: (int, int) -> string) returns (n: nat)
    ensures n <= |AfterHeader(lines)| && (|lines| > 0 ==> n <= |lines| - 1)
    ensures |IvarLines(sample, lines, showProportion).written| == n
    ensures forall k :: 0 <= k < n ==>
      IvarRow(sample, lines[k + 1], showProportion) == Ok(IvarLines(sample, lines, showProportion).written[k])
    ensures IvarLines(sample, lines, showProportion).failure.None? <==> n == |AfterHeader(lines)|
    ensures n < |AfterHeader(lines)| ==>
      IvarRow(sample, lines[n + 1], showProportion).Err?
      && IvarLines(sample, lines, showProportion).failure == Some(IvarRow(sample, lines[n + 1], showProportion).error)
  {
    var body := AfterHeader(lines);
    n := IvarBodyRows(sample, body, showProportion);
    assert forall k :: 0 <= k < |body| ==> body[k] == lines[k + 1];
  }

  lemma IvarBodyRows(sample: string, body: seq<string>, showProportion: (int, int) -> string) returns (n: nat)
    ensures n <= |body|
    ensures |Collect(IvarStepFn(sample, showProportion), body).written| == n
    ensures forall k :: 0 <= k < n ==>
      IvarRow(sample, body[k], showProportion) == Ok(Collect(IvarStepFn(sample, showProportion), body).written[k])
    ensures Collect(IvarStepFn(sample, showProportion), body).failure.None? <==> n == |body|
    ensures n < |body| ==>
      IvarRow(sample, body[n], showProportion).Err?
      && Collect(IvarStepFn(sample, showProportion), body).failure == Some(IvarRow(sample, body[n], showProportion).error)
  {
    var step := IvarStepFn(sample, showProportion);
    var rowOf := IvarRowFn(sample, showProportion);
    forall line ensures step(line) == Single(rowOf(line)) {
      IvarStepOfRow(sample, line, showProportion);
    }
    n := CollectRows(step, rowOf, body);
  }
}
