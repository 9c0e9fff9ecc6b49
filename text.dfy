/** The Python string operations the two scripts rely on: `rstrip()`, `in`, `split(sep)`, `sep.join(...)` and `replace(old, "")`, plus
  the two line views both scripts share (tab-separated columns, header lines).
 */
module Text {
  import opened Results

  /** Python's `str.isspace` on one character: the characters that `rstrip()`
      treats as whitespace. */
  predicate IsSpace(c: char) {
    var n := c as int;
    (0x09 <= n <= 0x0D) || (0x1C <= n <= 0x20) || n == 0x85 || n == 0xA0 || n == 0x1680
    || (0x2000 <= n <= 0x200A) || n == 0x2028 || n == 0x2029 || n == 0x202F || n == 0x205F
    || n == 0x3000
  }

  /** The index after the last non-whitespace character of `s` before `j`. */
  function SpacesBefore(s: string, j: nat): (i: nat)
    requires j <= |s|
    ensures i <= j
    decreases j
  {
    if j > 0 && IsSpace(s[j - 1]) then SpacesBefore(s, j - 1) else j
  }

  /** `s.rstrip()`: `s` up to the end of its last non-whitespace character. */
  function RStrip(s: string): string {
    s[..SpacesBefore(s, |s|)]
  }

  lemma {:induction false} SpacesBeforeMeaning(s: string, j: nat)
    requires j <= |s|
    ensures forall k :: SpacesBefore(s, j) <= k < j ==> IsSpace(s[k])
    ensures SpacesBefore(s, j) == 0 || !IsSpace(s[SpacesBefore(s, j) - 1])
    decreases j
  {
    if j > 0 && IsSpace(s[j - 1]) {
      SpacesBeforeMeaning(s, j - 1);
    }
  }

  /** `rstrip` removes the whitespace at the end and nothing else. */
  lemma RStripMeaning(s: string)
    ensures RStrip(s) <= s
    ensures forall k :: |RStrip(s)| <= k < |s| ==> IsSpace(s[k])
    ensures RStrip(s) == [] || !IsSpace(RStrip(s)[|RStrip(s)| - 1])
  {
    SpacesBeforeMeaning(s, |s|);
  }

  /** `pat` occurs in `s` starting at index `i`. */
  predicate OccursAt(s: string, pat: string, i: nat) {
    i + |pat| <= |s| && s[i..i + |pat|] == pat
  }

  /** The first occurrence of `pat` in `s` at or after index `i`. */
  function IndexFrom(s: string, pat: string, i: nat): (r: Option<nat>)
    ensures r.Some? ==> i <= r.value && OccursAt(s, pat, r.value)
    ensures r.Some? ==> forall j :: i <= j < r.value ==> !OccursAt(s, pat, j)
    ensures r.None? ==> forall j :: i <= j ==> !OccursAt(s, pat, j)
    decreases |s| - i
  {
    if i + |pat| > |s| then None
    else if OccursAt(s, pat, i) then Some(i)
    else IndexFrom(s, pat, i + 1)
  }

  /** `s.find(pat)`, with no occurrence as `None`. */
  function IndexOf(s: string, pat: string): Option<nat> {
    IndexFrom(s, pat, 0)
  }

  /** Python's `pat in s`. */
  predicate Contains(s: string, pat: string) {
    IndexOf(s, pat).Some?
  }

  lemma ContainsMeansOccurs(s: string, pat: string)
    ensures Contains(s, pat) <==> exists j: nat :: OccursAt(s, pat, j)
  {
    if Contains(s, pat) {
      assert OccursAt(s, pat, IndexOf(s, pat).value);
    }
  }

  /** `s.split(sep)` for a non-empty separator: the pieces between the
      occurrences of `sep`, found from the left without overlap. */
  function Split(s: string, sep: string): (parts: seq<string>)
    requires |sep| > 0
    ensures |parts| >= 1
    decreases |s|
  {
    match IndexOf(s, sep)
    case None => [s]
    case Some(i) => [s[..i]] + Split(s[i + |sep|..], sep)
  }

  /** `sep.join(parts)`. */
  function Join(parts: seq<string>, sep: string): string
    decreases |parts|
  {
    if |parts| == 0 then ""
    else if |parts| == 1 then parts[0]
    else parts[0] + sep + Join(parts[1..], sep)
  }

  /** `s.replace(pat, "")`: every occurrence of `pat` removed. */
  function RemoveAll(s: string, pat: string): (r: string)
    requires |pat| > 0
  {
    Join(Split(s, pat), "")
  }

  /** `line.rstrip().split("\t")`: the tab-separated columns of a line, with
      trailing whitespace (the newline included) removed first. */
  function Columns(line: string): (cols: seq<string>)
    ensures |cols| >= 1
  {
    Split(RStrip(line), "\t")
  }

  /** A line whose first character is `#` (a VCF header line). */
  predicate IsHeader(line: string) {
    |line| > 0 && line[0] == '#'
  }

  /** Total number of characters in `parts`. */
  function TotalLength(parts: seq<string>): nat
    decreases |parts|
  {
    if |parts| == 0 then 0 else |parts[0]| + TotalLength(parts[1..])
  }

  /** Joining puts `|sep|` characters between each pair of neighbours. */
  lemma {:induction false} JoinLength(parts: seq<string>, sep: string)
    requires |parts| >= 1
    ensures |Join(parts, sep)| == TotalLength(parts) + (|parts| - 1) * |sep|
    decreases |parts|
  {
    if |parts| > 1 {
      JoinLength(parts[1..], sep);
    }
  }

  /** Splitting and joining again with the same separator gives back the text. */
  lemma {:induction false} JoinOfSplit(s: string, sep: string)
    requires |sep| > 0
    ensures Join(Split(s, sep), sep) == s
    decreases |s|
  {
    match IndexOf(s, sep)
    case None =>
    case Some(i) =>
      var rest := s[i + |sep|..];
      JoinOfSplit(rest, sep);
      assert s[i..i + |sep|] == sep;
      assert s == s[..i] + sep + rest;
  }

  /** A one-character separator that occurs in no piece splits the joined
      text back into exactly those pieces. */
  lemma {:induction false} SplitOfJoin(parts: seq<string>, c: char)
    requires |parts| >= 1
    requires forall k, j :: 0 <= k < |parts| && 0 <= j < |parts[k]| ==> parts[k][j] != c
    ensures Split(Join(parts, [c]), [c]) == parts
    decreases |parts|
  {
    var sep := [c];
    if |parts| == 1 {
      NoOccurrence(parts[0], c);
    } else {
      var p := parts[0];
      var tail := Join(parts[1..], sep);
      var s := p + sep + tail;
      assert Join(parts, sep) == s;
      assert s[|p|..|p| + 1] == sep;
      assert OccursAt(s, sep, |p|);
      forall j: nat | j < |p| ensures !OccursAt(s, sep, j) {
        assert s[j..j + 1][0] == s[j] == p[j];
      }
      var i := IndexOf(s, sep).value;
      assert i == |p|;
      assert s[..i] == p && s[i + 1..] == tail;
      assert Split(s, sep) == [p] + Split(tail, sep);
      SplitOfJoin(parts[1..], c);
      assert parts == [p] + parts[1..];
    }
  }

  lemma NoOccurrence(s: string, c: char)
    requires forall j :: 0 <= j < |s| ==> s[j] != c
    ensures IndexOf(s, [c]) == None
  {
    forall i: nat | i + 1 <= |s| ensures !OccursAt(s, [c], i) {
      assert s[i..i + 1][0] == s[i];
    }
  }

  /** `replace(pat, "")` drops exactly `|pat|` characters per occurrence found
      by `split`, leaves the rest in order, and changes nothing when `pat`
      does not occur. */
  lemma RemoveAllRemovesOccurrences(s: string, pat: string)
    requires |pat| > 0
    ensures |RemoveAll(s, pat)| == |s| - (|Split(s, pat)| - 1) * |pat|
    ensures Join(Split(s, pat), pat) == s
    ensures !Contains(s, pat) ==> RemoveAll(s, pat) == s
  {
    JoinOfSplit(s, pat);
    JoinLength(Split(s, pat), pat);
    JoinLength(Split(s, pat), "");
  }
}
