# Variant-call tabulation and filtering scripts, modelled in Dafny

The pipeline comes with two post-processing scripts for the output of the
variant callers LoFreq and iVar:

- `scripts/tablefromvcf.py` reads a directory of LoFreq VCF files
  (`*_lofreq.vcf`) and iVar TSV files (`*_variants.tsv`). It writes one CSV
  table, `Sample,Caller,Region,Position,Ref,Alt,Ref_Reads,Alt_Reads,Proportion,Basic_Pass`,
  with one row per variant line. LoFreq read counts are sums of the DP4
  strand counts (the fourth `;`-separated INFO entry). The AF text (the second
  entry) is copied unchanged. A "basic pass" needs at least 100 alternate
  reads and an allele fraction of at least 0.05. For iVar it also needs a
  non-empty PASS column. Because `bool(text)` is true for any non-empty text,
  `FALSE` counts too.
- `scripts/filterannotated.py` copies an annotated VCF file from either
  caller. It keeps every header line (first character `#`). It keeps a
  variant line iff three things hold: the FILTER column is the caller's pass
  token (`TRUE` for iVar, `PASS` for LoFreq), the allele fraction is at least
  0.01, and the alternate depth is at least 100. For any other caller name it
  writes nothing.

The project has six files:

| file | module | contents |
|---|---|---|
| `results.dfy` | `Results` | The exceptions the scripts can raise (`IndexError`, `ValueError`, `ZeroDivisionError`), and `Option`/`Result`. |
| `text.dfy` | `Text` | `rstrip()`, `in`, `split`, `join`, `replace(s, "")`, tab-separated columns, header lines. |
| `numbers.dfy` | `Numbers` | `int(text)`, `str(n)` and `float(text)`. Around a number they skip ASCII whitespace and the non-ASCII spaces, but not the separators U+001C to U+001F that `rstrip()` removes. Floats are exact decimals. Thresholds are fractions (0.05 = 1/20, 0.01 = 1/100), so threshold tests are exact rational comparisons. |
| `runs.dfy` | `Runs` | A run of a script. |
| `tablefromvcf.dfy` | `TableFromVcf` | The tabulator. |
| `filterannotated.dfy` | `FilterAnnotated` | The filter. |

A run of a script is the sequence of strings passed to `fileout.write`, plus
the exception that ended it, if any. A malformed line does not stop the
model: it raises the exception Python would raise, at the same point, so
nothing written after it appears. The exceptions that depend on the Python
version or on floating point are listed under "Left out". Python evaluates operands left
to right and `and` short-circuits, so the order of evaluation matters:

- The tabulator calls `float` on the LoFreq AF text only when the alternate
  count reaches 100.
- The filter calls `int` on the iVar alternate depth only when the allele
  fraction reaches 0.01.

Each loop of the source is a method with a `for` loop: `WriteLofreq`,
`WriteIvar`, `Tabulate`, and `FilterLines`. `FilterLines` is the one loop
that stands for both of the filter's loops (one per caller). `FilterVcf` has
no loop: it sends each of the two `if caller == ...` branches to
`FilterLines`. Each method is proved to produce exactly the run given by a
function of its inputs. The properties
of those functions are proved as lemmas.

## Model

| member | source | states |
|---|---|---|
| `TableFromVcf.Tabulate` | scripts/tablefromvcf.py:27-65 | The strings written, and the exception raised if any, are those of `Table`. That is: the header, then each listing entry in order through the branches its name selects, stopping at the first exception. The first string written is the header. |
| `TableFromVcf.WriteLofreq` | scripts/tablefromvcf.py:34-47 | The loop over one LoFreq file appends exactly that file's run, `LofreqLines`, to what was written before. |
| `TableFromVcf.WriteIvar` | scripts/tablefromvcf.py:53-64 | The loop over an iVar file after `readline()` has consumed its first line appends exactly the file's run, `IvarLines`. |
| `TableFromVcf.TableStartsWithHeader` | scripts/tablefromvcf.py:27 | Whatever the listing holds, and whether or not the script later raises, the first string written is the column header line. |
| `TableFromVcf.TableStopsAtFailure` | scripts/tablefromvcf.py:29-65 | Once the entries so far have raised, later entries change neither the output nor the exception. |
| `TableFromVcf.TablePrefix` | scripts/tablefromvcf.py:29-65 | The output for a prefix of the listing is a prefix of the whole output. |
| `TableFromVcf.TableSkipsOtherFiles` | scripts/tablefromvcf.py:30-49 | An entry whose name contains neither suffix adds nothing. |
| `TableFromVcf.FileRunBothBranches` | scripts/tablefromvcf.py:30-65 | An entry whose name contains both suffixes writes its LoFreq rows, then its iVar rows unless the LoFreq branch raised. Each branch's sample name is the name with that branch's suffix removed. |
| `TableFromVcf.SampleName` | scripts/tablefromvcf.py:33 | Take a name that is a sample name not containing the suffix, followed by the suffix. The name then contains the suffix, and removing every occurrence of the suffix gives back exactly that sample name. |
| `TableFromVcf.ReadInfoOk` | scripts/tablefromvcf.py:42-44 | Reading the INFO column succeeds iff it has 4 `;` entries and the 2nd and 4th contain `=`. It then gives the 2nd entry's second `=`-separated piece (the text between its first and second `=`), and the comma-separated values in the 4th entry's second `=`-separated piece. Otherwise it raises IndexError. |
| `TableFromVcf.ReadCountsOk` | scripts/tablefromvcf.py:44-45 | The counts read iff there are 4 DP4 values and `int` accepts each. They are then `(DP4[0]+DP4[1], DP4[2]+DP4[3])`. |
| `TableFromVcf.LofreqPassMeaning` | scripts/tablefromvcf.py:46 | The LoFreq pass raises iff the alternate count reaches 100 and `float` rejects the AF text. Otherwise it holds iff the count is at least 100 and the AF is at least 0.05. |
| `TableFromVcf.ReadLofreqOk` | scripts/tablefromvcf.py:37-46 | A LoFreq data line yields a call iff it has 8 columns, its INFO column has the entries above, its 4 DP4 counts are integers, and its AF text is a float whenever the alternate count reaches 100. |
| `TableFromVcf.ReadLofreqValue` | scripts/tablefromvcf.py:37-46 | The call holds columns 1, 2, 4 and 5, Ref_Reads = DP4[0]+DP4[1], Alt_Reads = DP4[2]+DP4[3], and the AF text unchanged. It passes iff Alt_Reads ≥ 100 and AF ≥ 0.05. |
| `TableFromVcf.LofreqFieldsMeaning` | scripts/tablefromvcf.py:47 | A LoFreq row joins 11 fields. The last is the newline itself. The sample, `lofreq`, the call's text fields and AF come first, in order. `True` appears exactly for a pass and `False` otherwise. |
| `TableFromVcf.LofreqCountsReadBack` | scripts/tablefromvcf.py:47 | `int` reads the two count fields of a LoFreq row back as the call's sums. |
| `TableFromVcf.LofreqRowReadsBack` | scripts/tablefromvcf.py:47 | When no text field contains a comma, a LoFreq row splits on `,` back into exactly its 11 fields, and it ends with `,\n`. |
| `TableFromVcf.ReadIvarOk` | scripts/tablefromvcf.py:55-62 | An iVar line yields a call iff it has 14 columns, `int` accepts columns 5 and 8, and the two counts do not sum to zero. It raises ZeroDivisionError iff both counts read and sum to zero. |
| `TableFromVcf.ReadIvarValue` | scripts/tablefromvcf.py:55-63 | The call holds columns 1-4 and the counts of columns 5 and 8. It passes iff column 14 is non-empty, Alt_Reads ≥ 100, and alt/(alt+ref) ≥ 0.05 as real numbers. |
| `TableFromVcf.IvarProportionTest` | scripts/tablefromvcf.py:62-63 | For counts that are not negative, the proportion test is `20 * alt >= alt + ref`. |
| `TableFromVcf.IvarFieldsMeaning` | scripts/tablefromvcf.py:64 | An iVar row joins 10 fields: the sample, `ivar`, the call's text fields, the rendered proportion of its counts, and `True` exactly for a pass. |
| `TableFromVcf.IvarCountsReadBack` | scripts/tablefromvcf.py:64 | `int` reads the two count fields of an iVar row back as the call's counts. |
| `TableFromVcf.IvarRowReadsBack` | scripts/tablefromvcf.py:64 | An iVar row ends with `\n`. When no text field contains a comma, the rest splits on `,` back into exactly its 10 fields. |
| `TableFromVcf.LofreqFileRows` | scripts/tablefromvcf.py:34-47 | A LoFreq file writes nothing for header lines and exactly one row per data line, in order, up to the first line that raises. It raises iff that line exists. The line is then empty, or a data line whose row raises, and its exception is the run's. |
| `TableFromVcf.IvarFileRows` | scripts/tablefromvcf.py:53-64 | An iVar file's first line is discarded whatever it holds. Lines 2, 3, … each give exactly one row, in order, up to the first line whose row raises. The run raises iff that line exists, with its exception. |
| `Numbers.ReadIntsOk` | scripts/tablefromvcf.py:44-45 | Converting the first `n` entries succeeds iff there are `n` and `int` accepts each. The values are then the entries' integers. |
| `Numbers.ReadIntsErr` | scripts/tablefromvcf.py:44-45 | A failed conversion of `n` entries raises for the first entry that is missing or not an integer. It raises IndexError if that entry is missing and ValueError if `int` rejects it. |
| `Numbers.IntRoundTrip` | scripts/tablefromvcf.py:47 | `int(str(n)) == n` for every integer, for the model's `int()` and `str()`, which have no digit limit. |
| `Numbers.AtLeastIsExact` | scripts/tablefromvcf.py:46 | The integer test `AtLeast` on a parsed decimal equals the exact comparison of its value with `num / den`. |
| `Numbers.RatioAtLeastIsExact` | scripts/tablefromvcf.py:62-63 | The integer test `RatioAtLeast` equals the exact comparison of `n / d` with `num / den`, for either sign of `d`. |
| `Text.RStripMeaning` | scripts/tablefromvcf.py:37 | `rstrip()` returns a prefix of the text. It removes only whitespace, and what remains does not end in whitespace. |
| `Text.ContainsMeansOccurs` | scripts/tablefromvcf.py:30 | `pat in s` holds iff `pat` occurs at some index of `s`. |
| `Text.RemoveAllRemovesOccurrences` | scripts/tablefromvcf.py:33 | `replace(pat, "")` drops `len(pat)` characters per occurrence found by `split`. It changes nothing when `pat` does not occur. |
| `Text.JoinOfSplit` | scripts/tablefromvcf.py:51 | Joining the pieces of `s.split(sep)` with `sep` gives `s` back. |
| `Text.SplitOfJoin` | scripts/tablefromvcf.py:64 | Splitting a `c`-joined list of pieces that contain no `c` gives the pieces back. |
| `Runs.CollectStopsAtFailure` | scripts/filterannotated.py:21-31 | Once a prefix of the lines has raised, the remaining lines are never looked at. |
| `Runs.CollectRows` | scripts/tablefromvcf.py:54-64 | When each line writes one string or raises, a loop writes one string per line, in order, up to the first line that raises. It raises iff that line exists, with that line's exception. |
| `Runs.CollectSelects` | scripts/filterannotated.py:33-43 | When each line is written unchanged or dropped, a loop writes the accepted lines up to the first line that raises. It raises iff that line exists, with its exception. |
| `Runs.SelectedIsSubsequence` | scripts/filterannotated.py:21-31 | The accepted lines form a subsequence of the input at strictly increasing indices. An index is used iff its line is accepted. |
| `Runs.CollectAllKept` | scripts/filterannotated.py:21-23 | A loop over lines that are all accepted writes them all and raises nothing. |
| `FilterAnnotated.IvarKeepMeaning` | scripts/filterannotated.py:25-30 | An iVar line is kept iff column 7 is `TRUE`, the last `:` field of the last column is a float ≥ 0.01, and the 2nd `,` entry of its 4th `:` field is an integer ≥ 100. The test succeeds iff the fields exist, the fraction is a float, and the depth is an integer whenever the fraction passes. Otherwise it raises ValueError or IndexError as stated. |
| `FilterAnnotated.IvarKeepIgnoresRefDepth` | scripts/filterannotated.py:28-30 | Two iVar lines that agree on the filter column, the fraction and the alternate depth get the same decision, whatever their reference depths. |
| `FilterAnnotated.LofreqKeepMeaning` | scripts/filterannotated.py:37-42 | A LoFreq line is kept iff column 7 is `PASS`, the text after `;AF=` (up to the next `;`) is a float ≥ 0.01, and DP4[2]+DP4[3] ≥ 100. The test succeeds iff the `;AF=` and `DP4=` entries and 7 columns exist and all five numbers convert. |
| `FilterAnnotated.LofreqKeepIgnoresRefDepth` | scripts/filterannotated.py:40-42 | Two LoFreq lines whose counts all convert, and that agree on the filter column, the AF text and DP4[2], DP4[3], get the same decision, whatever DP4[0] and DP4[1] are. |
| `FilterAnnotated.FilterStepChooses` | scripts/filterannotated.py:22-30 | Each step writes its own line unchanged or nothing. |
| `FilterAnnotated.FilterLines` | scripts/filterannotated.py:21-31 | The loop over the file produces exactly the run `Collect(FilterStepFn(caller), lines)`. |
| `FilterAnnotated.FilterVcf` | scripts/filterannotated.py:20-43 | The script produces exactly the run `Filtered(caller, lines)`. For a caller other than `ivar` or `lofreq` it writes nothing and raises nothing. |
| `FilterAnnotated.FilterRun` | scripts/filterannotated.py:20-43 | For a known caller, the output is the input lines at strictly increasing indices, unchanged. They are exactly the header lines and accepted data lines before the first line that raises. The run raises iff that line exists. The line is then empty, or a data line whose test raises, and its exception is the run's. |
| `FilterAnnotated.FilterCopiesHeaders` | scripts/filterannotated.py:22-23 | A run that raises nothing copies every header line, in order. |
| `FilterAnnotated.FilterIdempotent` | scripts/filterannotated.py:20-43 | Filtering the output of a run that raised nothing gives that output again, and raises nothing. |

## Left out

- File and directory I/O is not modelled: `sys.argv`, `open`, `os.listdir`, `close`, and the exceptions they raise. The listing is given as a sequence of (name, lines) pairs in `os.listdir`'s order, and a file as the lines iteration yields. No property depends on which order `os.listdir` returns.
- `str(float)` is not modelled. The rendering of the iVar proportion, `str(float(alt) / (float(alt) + float(ref)))`, is a parameter `showProportion(alt, ref)`, because Python's shortest-repr float formatting is not modelled.
- Binary floating point is not modelled. `float(text)` is the exact decimal the text denotes, and the iVar quotient is compared as an exact rational. A value that rounds across a threshold (e.g. more than 17 significant digits), or counts beyond 2^53, may be judged differently by CPython.
- The `OverflowError` of `float(n)` for integers beyond the float range is not modelled.
- `ParseInt`, `ShowInt` and `IntRoundTrip` do not model the digit limit that CPython 3.11 and later (and the security releases back to 3.7.14) put on conversions between `int` and `str`. The limit is 4300 digits by default and can be changed at run time. Beyond it, `int(text)` and `str(n)` raise ValueError, while the model converts numbers of any length.
- `int()` and `float()` accept any Unicode decimal digit; the model accepts ASCII digits only. Text that uses other digits is modelled as a ValueError.
- The empty line is modelled, not excluded. Iterating over a file never yields an empty line. The model still gives `line[0]` on an empty line its IndexError rather than requiring non-empty lines.
- A zero read-count sum is modelled, not excluded. When both iVar counts are zero, the division raises ZeroDivisionError, which the model returns as an error result rather than excluding the case by a precondition.
- The pipeline engine that runs these scripts is not part of this model: manifest ingestion, channels, keyed joins, tool selection, log aggregation and process orchestration. Its code is not among the modelled files, and it is concurrent process orchestration.
