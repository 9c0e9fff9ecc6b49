/** scripts/filterannotated.py: copy an annotated VCF file from LoFreq or
  iVar, keeping its header lines and those variant lines whose allele
  fraction and alternate depth reach the thresholds and whose caller marked
  them as passing.

  The input file is given as the lines that iterating over it yields, the
  caller as its name. The output is the sequence of strings passed to
  `fileout.write`.
 */
module FilterAnnotated {
  import opened Results
  import opened Text
  import opened Numbers
  import opened Runs

  const IvarCaller: string := "ivar"
  const LofreqCaller: string := "lofreq"

  /** `altdepththreshold`: the least alternate depth of a kept line. */
  const AltDepthThreshold: int := 100

  /** `proportionthreshold = 0.01`, as the fraction 1/100. */
  const ProportionNum: nat := 1
  const ProportionDen: nat := 100

  // ------------------------------------------------------------------ iVar

  /** `collect[-1].split(":")`: the fields of the sample column (the last one),
      `GT:PVAL:AQ:DP:AF` in the order of the FORMAT column. */
  function IvarSample(line: string): (fields: seq<string>)
    ensures |fields| >= 1
  {
    var cols := Columns(line);
    Split(cols[|cols| - 1], ":")
  }

  /** `collect[-1].split(":")[-1]`: the allele fraction text. */
  function IvarProportionText(line: string): string {
    var fields := IvarSample(line);
    fields[|fields| - 1]
  }

  /** `collect[-1].split(":")[3].split(",")`: the reference and alternate depths. */
  function IvarDepths(line: string): (depths: seq<string>)
    requires |IvarSample(line)| >= 4
    ensures |depths| >= 1
  {
    Split(IvarSample(line)[3], ",")
  }

  /** Lines 25-30 for a line that is not a header: whether it is written, or
      the exception raised on the way. The reference depth of line 28 is
      taken as text and never converted; `int(altdepth)` is only evaluated
      when the proportion reaches the threshold. */
  function IvarKeep(line: string): Result<bool> {
    var cols := Columns(line);
    if |cols| < 7 then Err(IndexError)
    else
      var truevar := cols[6] == "TRUE";
      var proportion :- FloatOf(IvarProportionText(line));
      if |IvarSample(line)| < 4 then Err(IndexError)
      else if |IvarDepths(line)| < 2 then Err(IndexError)
      else if !AtLeast(proportion, ProportionNum, ProportionDen) then Ok(false)
      else
        var altdepth :- IntOf(IvarDepths(line)[1]);
        Ok(altdepth >= AltDepthThreshold && truevar)
  }

  /** An iVar line is kept iff the filter column says `TRUE`, its allele
      fraction is at least 0.01 and its alternate depth at least 100; it
      raises iff a field is missing or a number it converts is malformed. */
  lemma IvarKeepMeaning(line: string)
    ensures IvarKeep(line) == Ok(true) <==>
      |Columns(line)| >= 7 && Columns(line)[6] == "TRUE"
      && ParseFloat(IvarProportionText(line)).Some?
      && AtLeast(ParseFloat(IvarProportionText(line)).value, 1, 100)
      && |IvarSample(line)| >= 4 && |IvarDepths(line)| >= 2
      && ParseInt(IvarDepths(line)[1]).Some? && ParseInt(IvarDepths(line)[1]).value >= 100
    ensures IvarKeep(line).Ok? <==>
      |Columns(line)| >= 7 && ParseFloat(IvarProportionText(line)).Some?
      && |IvarSample(line)| >= 4 && |IvarDepths(line)| >= 2
      && (AtLeast(ParseFloat(IvarProportionText(line)).value, 1, 100) ==> ParseInt(IvarDepths(line)[1]).Some?)
    ensures IvarKeep(line) == Err(ValueError) <==>
      |Columns(line)| >= 7
      && (ParseFloat(IvarProportionText(line)).None?
          || (|IvarSample(line)| >= 4 && |IvarDepths(line)| >= 2
              && AtLeast(ParseFloat(IvarProportionText(line)).value, 1, 100)
              && ParseInt(IvarDepths(line)[1]).None?))
    ensures IvarKeep(line) != Err(ZeroDivisionError)
  {
  }

  /** The reference depth never decides: two iVar lines that agree on the
      filter column, the allele fraction and the alternate depth are treated
      alike, whatever their reference depths and other columns hold. */
  lemma IvarKeepIgnoresRefDepth(a: string, b: string)
    requires |Columns(a)| >= 7 && |Columns(b)| >= 7
    requires |IvarSample(a)| >= 4 && |IvarSample(b)| >= 4
    requires |IvarDepths(a)| >= 2 && |IvarDepths(b)| >= 2
    requires Columns(a)[6] == Columns(b)[6]
    requires IvarProportionText(a) == IvarProportionText(b)
    requires IvarDepths(a)[1] == IvarDepths(b)[1]
    ensures IvarKeep(a) == IvarKeep(b)
  {
  }

  // ---------------------------------------------------------------- LoFreq

  /** `collect[-1]`: the INFO column, the last one of a LoFreq line. */
  function InfoColumn(line: string): string {
    var cols := Columns(line);
    cols[|cols| - 1]
  }

  /** The INFO column has an `;AF=` entry. */
  predicate HasAfEntry(line: string) {
    |Split(InfoColumn(line), ";AF=")| >= 2
  }

  /** `collect[-1].split(";AF=")[1].split(";")[0]`: the allele fraction text. */
  function LofreqAfText(line: string): string
    requires HasAfEntry(line)
  {
    Split(Split(InfoColumn(line), ";AF=")[1], ";")[0]
  }

  /** The INFO column has a `DP4=` entry. */
  predicate HasDp4Entry(line: string) {
    |Split(InfoColumn(line), "DP4=")| >= 2
  }

  /** `collect[-1].split("DP4=")[1].split(";")[0].split(",")`: the strand counts. */
  function LofreqDp4(line: string): (counts: seq<string>)
    requires HasDp4Entry(line)
    ensures |counts| >= 1
  {
    Split(Split(Split(InfoColumn(line), "DP4=")[1], ";")[0], ",")
  }

  /** Lines 37-42 for a line that is not a header. The allele fraction is
      read before `collect[6]`; lines 40-41 convert the four strand counts
      in order, so the reference counts must be numbers too. */
  function LofreqKeep(line: string): Result<bool> {
    var cols := Columns(line);
    if !HasAfEntry(line) then Err(IndexError)
    else
      var proportion :- FloatOf(LofreqAfText(line));
      if |cols| < 7 then Err(IndexError)
      else
        var truevar := cols[6] == "PASS";
        if !HasDp4Entry(line) then Err(IndexError)
        else
          var counts :- ReadInts(LofreqDp4(line), 4);
          var refdepth := counts[0] + counts[1];
          var altdepth := counts[2] + counts[3];
          Ok(AtLeast(proportion, ProportionNum, ProportionDen) && altdepth >= AltDepthThreshold && truevar)
  }

  /** A LoFreq line is kept iff the filter column says `PASS`, its allele
      fraction is at least 0.01 and its two alternate strand counts sum to at
      least 100; it raises iff an entry is missing or a number is malformed. */
  lemma LofreqKeepMeaning(line: string)
    ensures LofreqKeep(line).Ok? <==>
      HasAfEntry(line) && ParseFloat(LofreqAfText(line)).Some?
      && |Columns(line)| >= 7 && HasDp4Entry(line) && |LofreqDp4(line)| >= 4
      && forall k :: 0 <= k < 4 ==> ParseInt(LofreqDp4(line)[k]).Some?
    ensures LofreqKeep(line) == Ok(true) <==>
      HasAfEntry(line) && ParseFloat(LofreqAfText(line)).Some?
      && |Columns(line)| >= 7 && HasDp4Entry(line) && |LofreqDp4(line)| >= 4
      && (forall k :: 0 <= k < 4 ==> ParseInt(LofreqDp4(line)[k]).Some?)
      && AtLeast(ParseFloat(LofreqAfText(line)).value, 1, 100)
      && ParseInt(LofreqDp4(line)[2]).value + ParseInt(LofreqDp4(line)[3]).value >= 100
      && Columns(line)[6] == "PASS"
    ensures LofreqKeep(line) != Err(ZeroDivisionError)
  {
    if HasAfEntry(line) && |Columns(line)| >= 7 && HasDp4Entry(line) {
      ReadIntsOk(LofreqDp4(line), 4);
    }
  }

  /** The reference strand counts never decide: two LoFreq lines whose counts
      all convert and that agree on the filter column, the allele fraction
      and the alternate strand counts are treated alike. */
  lemma LofreqKeepIgnoresRefDepth(a: string, b: string)
    requires HasAfEntry(a) && HasAfEntry(b) && LofreqAfText(a) == LofreqAfText(b)
    requires |Columns(a)| >= 7 && |Columns(b)| >= 7 && Columns(a)[6] == Columns(b)[6]
    requires HasDp4Entry(a) && HasDp4Entry(b) && |LofreqDp4(a)| >= 4 && |LofreqDp4(b)| >= 4
    requires forall k :: 0 <= k < 4 ==> ParseInt(LofreqDp4(a)[k]).Some? && ParseInt(LofreqDp4(b)[k]).Some?
    requires LofreqDp4(a)[2] == LofreqDp4(b)[2] && LofreqDp4(a)[3] == LofreqDp4(b)[3]
    ensures LofreqKeep(a) == LofreqKeep(b)
  {
    LofreqKeepMeaning(a);
    LofreqKeepMeaning(b);
  }

  // ------------------------------------------------------------ whole file

  /** The decision for a line that is not a header, by caller. */
  function Keep(caller: string, line: string): Result<bool> {
    if caller == IvarCaller then IvarKeep(line) else LofreqKeep(line)
  }

  /** Whether a line is written: `line[0]` raises on an empty line, a header
      line is always written, any other line as the caller's test decides. */
  function Accepts(caller: string, line: string): Result<bool> {
    if |line| == 0 then Err(IndexError)
    else if line[0] == '#' then Ok(true)
    else Keep(caller, line)
  }

  function AcceptsFn(caller: string): string -> Result<bool> {
    line => Accepts(caller, line)
  }

  /** The body of the loop of lines 21-31 or 33-43 for one line. */
  function FilterStep(caller: string, line: string): Result<seq<string>> {
    if |line| == 0 then Err(IndexError)
    else if line[0] == '#' then Ok([line])
    else
      var keep :- Keep(caller, line);
      Ok(if keep then [line] else [])
  }

  function FilterStepFn(caller: string): string -> Result<seq<string>> {
    line => FilterStep(caller, line)
  }

  /** Each step writes its line unchanged or nothing. */
  lemma FilterStepChooses(caller: string)
    ensures forall line :: FilterStepFn(caller)(line) == Choose(line, AcceptsFn(caller)(line))
  {
  }

  /** Lines 20-43: a loop over the file for either known caller, nothing at
      all for any other caller name. */
  function Filtered(caller: string, lines: seq<string>): Run {
    if caller == IvarCaller || caller == LofreqCaller then Collect(FilterStepFn(caller), lines)
    else Done
  }

  /** The loop of lines 21-31 (iVar) or 33-43 (LoFreq). */
  method FilterLines(caller: string, lines: seq<string>) returns (written: seq<string>, failure: Option<Error>)
    ensures Run(written, failure) == Collect(FilterStepFn(caller), lines)
  {
    written, failure := [], None;
    var step := FilterStepFn(caller);
    FilterStepChooses(caller);
    for j := 0 to |lines|
      invariant Collect(step, lines[..j]).failure == None
      invariant written == Collect(step, lines[..j]).written
    {
      var line := lines[j];
      if |line| == 0 {
        // `line[0]` raises
        failure := Some(IndexError);
        CollectFailsAt(step, lines, j);
        return;
      }
      if line[0] == '#' {
        CollectAppend(step, lines, j);
        written := written + [line];
        continue;
      }
      var keep := Keep(caller, line);
      if keep.Err? {
        failure := Some(keep.error);
        CollectFailsAt(step, lines, j);
        return;
      }
      CollectAppend(step, lines, j);
      if keep.value {
        written := written + [line];
      }
    }
    assert lines[..|lines|] == lines;
  }

  /** The whole script on one input file. */
  method FilterVcf(lines: seq<string>, caller: string) returns (written: seq<string>, failure: Option<Error>)
    ensures Run(written, failure) == Filtered(caller, lines)
    ensures caller != IvarCaller && caller != LofreqCaller ==> written == [] && failure == None
  {
    written, failure := [], None;
    if caller == IvarCaller {
      written, failure := FilterLines(caller, lines);
    }
    if caller == LofreqCaller {
      written, failure := FilterLines(caller, lines);
    }
  }

  /** What a run writes: the input lines up to the first one that raises,
      each kept iff it is a header or its caller's test accepts it, unchanged
      and in order; the run raises iff a line is empty or its test raises. */
  lemma FilterRun(caller: string, lines: seq<string>) returns (n: nat, idx: seq<nat>)
    requires caller == IvarCaller || caller == LofreqCaller
    ensures n <= |lines|
    ensures Filtered(caller, lines).failure.None? <==> n == |lines|
    ensures n < |lines| ==>
      (|lines[n]| == 0 && Filtered(caller, lines).failure == Some(IndexError))
      || (!IsHeader(lines[n]) && Keep(caller, lines[n]).Err?
          && Filtered(caller, lines).failure == Some(Keep(caller, lines[n]).error))
    ensures |idx| == |Filtered(caller, lines).written|
    ensures forall k :: 0 <= k < |idx| ==> idx[k] < n && Filtered(caller, lines).written[k] == lines[idx[k]]
    ensures forall k, l :: 0 <= k < l < |idx| ==> idx[k] < idx[l]
    ensures forall j :: 0 <= j < n ==> (j in idx <==> IsHeader(lines[j]) || Keep(caller, lines[j]) == Ok(true))
  {
    var step := FilterStepFn(caller);
    var accepts := AcceptsFn(caller);
    FilterStepChooses(caller);
    n := CollectSelects(step, accepts, lines);
    var prefix := lines[..n];
    idx := SelectedIsSubsequence(accepts, prefix);
    forall j | 0 <= j < n
      ensures (j in idx <==> IsHeader(lines[j]) || Keep(caller, lines[j]) == Ok(true))
    {
      assert prefix[j] == lines[j];
    }
  }

  /** The header lines of `lines`, in order. */
  function Headers(lines: seq<string>): seq<string>
    decreases |lines|
  {
    if |lines| == 0 then []
    else Headers(lines[..|lines| - 1]) + (if IsHeader(lines[|lines| - 1]) then [lines[|lines| - 1]] else [])
  }

  lemma {:induction false} HeadersOfSelected(keepOf: string -> Result<bool>, lines: seq<string>)
    requires forall k :: 0 <= k < |lines| && IsHeader(lines[k]) ==> keepOf(lines[k]) == Ok(true)
    ensures Headers(Selected(keepOf, lines)) == Headers(lines)
    decreases |lines|
  {
    if |lines| > 0 {
      var init := lines[..|lines| - 1];
      var last := lines[|lines| - 1];
      assert forall k :: 0 <= k < |init| ==> init[k] == lines[k];
      HeadersOfSelected(keepOf, init);
      if keepOf(last) == Ok(true) {
        var s := Selected(keepOf, init) + [last];
        assert s[..|s| - 1] == Selected(keepOf, init);
      } else {
        assert !IsHeader(last);
        assert Selected(keepOf, lines) == Selected(keepOf, init) + [] == Selected(keepOf, init);
        assert Headers(lines) == Headers(init) + [] == Headers(init);
      }
    }
  }

  /** A run that raises nothing copies every header line, in order. */
  lemma FilterCopiesHeaders(caller: string, lines: seq<string>)
    requires caller == IvarCaller || caller == LofreqCaller
    requires Filtered(caller, lines).failure.None?
    ensures Headers(Filtered(caller, lines).written) == Headers(lines)
  {
    FilterStepChooses(caller);
    var n := CollectSelects(FilterStepFn(caller), AcceptsFn(caller), lines);
    assert lines[..n] == lines;
    HeadersOfSelected(AcceptsFn(caller), lines);
  }

  /** Filtering the output of a run that raised nothing again changes
      nothing: every line it wrote passes again and nothing raises. */
  lemma FilterIdempotent(caller: string, lines: seq<string>)
    requires Filtered(caller, lines).failure.None?
    ensures Filtered(caller, Filtered(caller, lines).written) == Run(Filtered(caller, lines).written, None)
  {
    if caller == IvarCaller || caller == LofreqCaller {
      var accepts := AcceptsFn(caller);
      FilterStepChooses(caller);
      var n := CollectSelects(FilterStepFn(caller), accepts, lines);
      assert lines[..n] == lines;
      SelectedAreKept(accepts, lines);
      CollectAllKept(FilterStepFn(caller), accepts, Selected(accepts, lines));
    }
  }
}
