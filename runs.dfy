/** What a script run leaves behind: the strings it passed to
  `fileout.write`, in order, and the exception that ended it early, if any.

  Both scripts process their input line by line; the step for one line either
  writes some strings or raises. `Collect` runs such a step over a sequence of
  lines and stops at the first exception, as the interpreter does.
 */
module Runs {
  import opened Results

  datatype Run = Run(written: seq<string>, failure: Option<Error>)

  /** Nothing written, nothing raised. */
  const Done: Run := Run([], None)

  /** `first`, then `next` unless `first` raised. */
  function Then(first: Run, next: Run): (r: Run)
    ensures first.written <= r.written
    ensures first.failure.Some? ==> r == first
    ensures first.failure.None? ==> r.written == first.written + next.written && r.failure == next.failure
  {
    if first.failure.Some? then first else Run(first.written + next.written, next.failure)
  }

  /** One step: its writes, or the exception it raised before writing. */
  function Emit(step: Result<seq<string>>): Run {
    match step
    case Ok(out) => Run(out, None)
    case Err(e) => Run([], Some(e))
  }

  /** `for line in lines: <step>` with the step's writes and exceptions. */
  function Collect(step: string -> Result<seq<string>>, lines: seq<string>): Run
    decreases |lines|
  {
    if |lines| == 0 then Done
    else Then(Collect(step, lines[..|lines| - 1]), Emit(step(lines[|lines| - 1])))
  }

  lemma ThenAssociative(a: Run, b: Run, c: Run)
    ensures Then(Then(a, b), c) == Then(a, Then(b, c))
  {
  }

  /** One more line extends the run by that line's step. */
  lemma CollectExtend(step: string -> Result<seq<string>>, lines: seq<string>, j: nat)
    requires j < |lines|
    ensures Collect(step, lines[..j + 1]) == Then(Collect(step, lines[..j]), Emit(step(lines[j])))
  {
    assert lines[..j + 1][..j] == lines[..j];
  }

  /** A line that does not raise adds its output to a run that has not raised. */
  lemma CollectAppend(step: string -> Result<seq<string>>, lines: seq<string>, j: nat)
    requires j < |lines|
    requires Collect(step, lines[..j]).failure.None? && step(lines[j]).Ok?
    ensures Collect(step, lines[..j + 1]) == Run(Collect(step, lines[..j]).written + step(lines[j]).value, None)
  {
    CollectExtend(step, lines, j);
  }

  /** The first line that raises ends the run with its exception. */
  lemma CollectFailsAt(step: string -> Result<seq<string>>, lines: seq<string>, j: nat)
    requires j < |lines|
    requires Collect(step, lines[..j]).failure.None? && step(lines[j]).Err?
    ensures Collect(step, lines) == Run(Collect(step, lines[..j]).written, Some(step(lines[j]).error))
  {
    CollectExtend(step, lines, j);
    CollectStopsAtFailure(step, lines, j + 1);
  }

  /** Once a prefix raises, the rest of the lines are never looked at. */
  lemma {:induction false} CollectStopsAtFailure(step: string -> Result<seq<string>>, lines: seq<string>, j: nat)
    requires j <= |lines|
    requires Collect(step, lines[..j]).failure.Some?
    ensures Collect(step, lines) == Collect(step, lines[..j])
    decreases |lines| - j
  {
    if j < |lines| {
      CollectExtend(step, lines, j);
      CollectStopsAtFailure(step, lines, j + 1);
    } else {
      assert lines[..j] == lines;
    }
  }

  /** A step that writes the one string it computes, or raises. */
  function Single(r: Result<string>): Result<seq<string>> {
    match r
    case Ok(row) => Ok([row])
    case Err(e) => Err(e)
  }

  /** When every line writes one string or raises, a run writes one string
      per line, in order, up to the first line that raises, and raises iff
      some line does, with that line's exception. */
  lemma {:induction false} CollectRows(step: string -> Result<seq<string>>, rowOf: string -> Result<string>, lines: seq<string>)
    returns (n: nat)
    requires forall line :: step(line) == Single(rowOf(line))
    ensures n <= |lines|
    ensures |Collect(step, lines).written| == n
    ensures forall k :: 0 <= k < n ==> rowOf(lines[k]) == Ok(Collect(step, lines).written[k])
    ensures Collect(step, lines).failure.None? <==> n == |lines|
    ensures n < |lines| ==> rowOf(lines[n]).Err? && Collect(step, lines).failure == Some(rowOf(lines[n]).error)
    decreases |lines|
  {
    if |lines| == 0 {
      return 0;
    }
    var init := lines[..|lines| - 1];
    var last := lines[|lines| - 1];
    var m := CollectRows(step, rowOf, init);
    assert forall k :: 0 <= k < |init| ==> init[k] == lines[k];
    if m < |init| {
      return m;
    }
    if rowOf(last).Err? {
      return m;
    }
    n := |lines|;
  }

  /** A step that writes its own line when `keep` holds, nothing when it
      does not, and raises what `keep` raised. */
  function Choose(line: string, keep: Result<bool>): Result<seq<string>> {
    match keep
    case Ok(b) => Ok(if b then [line] else [])
    case Err(e) => Err(e)
  }

  /** The lines of `lines` that `keepOf` accepts, in order. */
  function Selected(keepOf: string -> Result<bool>, lines: seq<string>): seq<string>
    decreases |lines|
  {
    if |lines| == 0 then []
    else Selected(keepOf, lines[..|lines| - 1]) + (if keepOf(lines[|lines| - 1]) == Ok(true) then [lines[|lines| - 1]] else [])
  }

  /** When every line is written unchanged or dropped, a run writes the
      accepted lines up to the first line that raises, and raises iff some
      line does, with that line's exception. */
  lemma {:induction false} CollectSelects(step: string -> Result<seq<string>>, keepOf: string -> Result<bool>, lines: seq<string>)
    returns (n: nat)
    requires forall line :: step(line) == Choose(line, keepOf(line))
    ensures n <= |lines|
    ensures forall k :: 0 <= k < n ==> keepOf(lines[k]).Ok?
    ensures Collect(step, lines).written == Selected(keepOf, lines[..n])
    ensures Collect(step, lines).failure.None? <==> n == |lines|
    ensures n < |lines| ==> keepOf(lines[n]).Err? && Collect(step, lines).failure == Some(keepOf(lines[n]).error)
    decreases |lines|
  {
    if |lines| == 0 {
      return 0;
    }
    var init := lines[..|lines| - 1];
    var last := lines[|lines| - 1];
    var m := CollectSelects(step, keepOf, init);
    assert init[..m] == lines[..m];
    if m < |init| {
      return m;
    }
    assert init == lines[..m];
    if keepOf(last).Err? {
      return m;
    }
    n := |lines|;
    assert lines[..n] == lines;
  }

  /** The selected lines are a subsequence of the input, made of exactly the
      lines `keepOf` accepts. */
  lemma {:induction false} SelectedIsSubsequence(keepOf: string -> Result<bool>, lines: seq<string>)
    returns (idx: seq<nat>)
    ensures |idx| == |Selected(keepOf, lines)|
    ensures forall k :: 0 <= k < |idx| ==> idx[k] < |lines| && Selected(keepOf, lines)[k] == lines[idx[k]]
    ensures forall k, l :: 0 <= k < l < |idx| ==> idx[k] < idx[l]
    ensures forall j :: 0 <= j < |lines| ==> (j in idx <==> keepOf(lines[j]) == Ok(true))
    decreases |lines|
  {
    if |lines| == 0 {
      return [];
    }
    var init := lines[..|lines| - 1];
    var last := |lines| - 1;
    idx := SelectedIsSubsequence(keepOf, init);
    if keepOf(lines[last]) == Ok(true) {
      idx := idx + [last];
    }
  }

  /** Every selected line is one that `keepOf` accepts. */
  lemma {:induction false} SelectedAreKept(keepOf: string -> Result<bool>, lines: seq<string>)
    ensures forall k :: 0 <= k < |Selected(keepOf, lines)| ==> keepOf(Selected(keepOf, lines)[k]) == Ok(true)
    decreases |lines|
  {
    if |lines| > 0 {
      SelectedAreKept(keepOf, lines[..|lines| - 1]);
    }
  }

  /** A run over lines that are all accepted writes them all and raises nothing. */
  lemma {:induction false} CollectAllKept(step: string -> Result<seq<string>>, keepOf: string -> Result<bool>, lines: seq<string>)
    requires forall line :: step(line) == Choose(line, keepOf(line))
    requires forall k :: 0 <= k < |lines| ==> keepOf(lines[k]) == Ok(true)
    ensures Collect(step, lines) == Run(lines, None)
    decreases |lines|
  {
    if |lines| > 0 {
      var init := lines[..|lines| - 1];
      CollectAllKept(step, keepOf, init);
      assert lines == init + [lines[|lines| - 1]];
    }
  }
}
