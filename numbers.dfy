/** Python's `int(text)`, `str(n)` and `float(text)` on the texts the scripts
  read, and the comparison of a parsed float against a decimal threshold.

  `float` values are kept exact: a finite value is `mantissa * 10^exponent`
  as written in the text, and thresholds such as 0.05 are the fraction 1/20.
  Comparisons are therefore exact rational inequalities; binary rounding is
  not modelled.
 */
module Numbers {
  import opened Results
  import opened Text

  predicate IsDigit(c: char) {
    '0' <= c <= '9'
  }

  function DigitValue(c: char): (d: nat)
    requires IsDigit(c)
    ensures d < 10
  {
    (c as int) - ('0' as int)
  }

  function DigitChar(d: nat): (c: char)
    requires d < 10
    ensures IsDigit(c) && DigitValue(c) == d
  {
    (('0' as int) + d) as char
  }

  function Pow10(n: nat): (r: nat)
    ensures r >= 1
  {
    if n == 0 then 1 else 10 * Pow10(n - 1)
  }

  /** Python's `digitpart`: digits, with single underscores allowed between
      two digits (PEP 515), as `int()` and `float()` accept them. */
  predicate IsDigitPart(s: string) {
    |s| > 0 &&
    forall k :: 0 <= k < |s| ==>
      IsDigit(s[k]) || (s[k] == '_' && 0 < k < |s| - 1 && IsDigit(s[k - 1]) && IsDigit(s[k + 1]))
  }

  /** The number of decimal digits in `s`. */
  function DigitCount(s: string): nat
    decreases |s|
  {
    if |s| == 0 then 0
    else DigitCount(s[..|s| - 1]) + (if IsDigit(s[|s| - 1]) then 1 else 0)
  }

  /** The value of the decimal digits of `s`, read left to right, skipping
      underscores; it has no more digits than `s`. */
  function DigitsValue(s: string): (v: nat)
    ensures v < Pow10(DigitCount(s))
    decreases |s|
  {
    if |s| == 0 then 0
    else
      var init := DigitsValue(s[..|s| - 1]);
      if IsDigit(s[|s| - 1]) then
        assert init * 10 + DigitValue(s[|s| - 1]) < 10 * Pow10(DigitCount(s[..|s| - 1]));
        init * 10 + DigitValue(s[|s| - 1])
      else init
  }

  /** An optional leading `+` or `-`: whether it was `-`, and the rest. */
  function SplitSign(t: string): (bool, string) {
    if |t| > 0 && (t[0] == '+' || t[0] == '-') then (t[0] == '-', t[1..]) else (false, t)
  }

  function Signed(negative: bool, n: nat): int {
    if negative then -(n as int) else n
  }

  /** `[sign] digitpart` with no surrounding whitespace. */
  function ParseSigned(t: string): Option<int> {
    var (negative, body) := SplitSign(t);
    if IsDigitPart(body) then Some(Signed(negative, DigitsValue(body))) else None
  }

  /** The whitespace `int()` and `float()` skip around a number: the ASCII
      characters ` \t\n\v\f\r` and the non-ASCII characters `str.isspace`
      accepts, which are first turned into spaces. The ASCII separators
      U+001C to U+001F count as whitespace for `str.isspace` but not here. */
  predicate IsNumberSpace(c: char) {
    IsSpace(c) && !(0x1C <= c as int <= 0x1F)
  }

  /** Python's `int(text)` in base 10: surrounding whitespace, an optional
      sign, then one digit part. `None` is the text `int()` rejects. */
  function ParseInt(s: string): Option<int>
    decreases |s|
  {
    if |s| > 0 && IsNumberSpace(s[0]) then ParseInt(s[1..])
    else if |s| > 0 && IsNumberSpace(s[|s| - 1]) then ParseInt(s[..|s| - 1])
    else ParseSigned(s)
  }

  /** `int(text)` as an expression that may raise. */
  function IntOf(s: string): (r: Result<int>)
    ensures r.Ok? <==> ParseInt(s).Some?
    ensures r.Ok? ==> r.value == ParseInt(s).value
    ensures r.Err? ==> r.error == ValueError
  {
    match ParseInt(s)
    case None => Err(ValueError)
    case Some(n) => Ok(n)
  }

  /** `int(entries[0])`, ..., `int(entries[n - 1])` evaluated in that
      order, each index checked just before its conversion. */
  function ReadInts(entries: seq<string>, n: nat): (r: Result<seq<int>>)
    ensures r.Ok? ==> |r.value| == n
    decreases n
  {
    if n == 0 then Ok([])
    else
      var init :- ReadInts(entries, n - 1);
      if |entries| < n then Err(IndexError)
      else
        var v :- IntOf(entries[n - 1]);
        Ok(init + [v])
  }

  /** Reading `n` integers succeeds iff there are `n` entries and `int`
      accepts each; the values are then the entries' values, in order. */
  lemma {:induction false} ReadIntsOk(entries: seq<string>, n: nat)
    ensures ReadInts(entries, n).Ok? <==> n <= |entries| && forall k :: 0 <= k < n ==> ParseInt(entries[k]).Some?
    ensures ReadInts(entries, n).Ok? ==> forall k :: 0 <= k < n ==> ReadInts(entries, n).value[k] == ParseInt(entries[k]).value
    decreases n
  {
    if n > 0 {
      ReadIntsOk(entries, n - 1);
      var init := ReadInts(entries, n - 1);
      if init.Ok? && n <= |entries| {
        var v := IntOf(entries[n - 1]);
        if v.Ok? {
          assert ReadInts(entries, n) == Ok(init.value + [v.value]);
        } else {
          assert ReadInts(entries, n).Err?;
        }
      }
    }
  }

  /** A failed read raises for the first entry `k` that is missing or not an
      integer: IndexError when the entry is missing, ValueError when `int`
      rejects it; every entry before `k` is an integer. */
  lemma {:induction false} ReadIntsErr(entries: seq<string>, n: nat) returns (k: nat)
    requires ReadInts(entries, n).Err?
    ensures k < n
    ensures forall j :: 0 <= j < k ==> j < |entries| && ParseInt(entries[j]).Some?
    ensures k >= |entries| ==> ReadInts(entries, n).error == IndexError
    ensures k < |entries| ==> ParseInt(entries[k]).None? && ReadInts(entries, n).error == ValueError
    decreases n
  {
    if ReadInts(entries, n - 1).Err? {
      k := ReadIntsErr(entries, n - 1);
    } else {
      ReadIntsOk(entries, n - 1);
      assert n - 1 <= |entries|;
      k := n - 1;
    }
  }

  /** `str(n)` for a natural number: its decimal digits, most significant first. */
  function ShowNat(n: nat): (r: string)
    ensures |r| >= 1
    ensures forall k :: 0 <= k < |r| ==> IsDigit(r[k])
    decreases n
  {
    if n < 10 then [DigitChar(n)] else ShowNat(n / 10) + [DigitChar(n % 10)]
  }

  /** `str(n)` for an integer: a `-` for a negative number, then the digits. */
  function ShowInt(n: int): (r: string)
    ensures |r| >= 1 && IsDigit(r[|r| - 1])
    ensures forall k :: 0 <= k < |r| ==> r[k] == '-' || IsDigit(r[k])
  {
    if n < 0 then "-" + ShowNat(-n) else ShowNat(n)
  }

  lemma {:induction false} ShowNatValue(n: nat)
    ensures DigitsValue(ShowNat(n)) == n
    decreases n
  {
    if n >= 10 {
      var s := ShowNat(n);
      ShowNatValue(n / 10);
      assert s[..|s| - 1] == ShowNat(n / 10);
    }
  }

  lemma ShowNatIsDigitPart(n: nat)
    ensures IsDigitPart(ShowNat(n))
  {
  }

  /** `int(str(n)) == n`: the rendering of a read count reads back as that count. */
  lemma IntRoundTrip(n: int)
    ensures ParseInt(ShowInt(n)) == Some(n)
  {
    var s := ShowInt(n);
    var m: nat := if n < 0 then -n else n;
    ShowNatValue(m);
    ShowNatIsDigitPart(m);
    if n < 0 {
      assert s[1..] == ShowNat(m);
    }
  }

  /** `float` values: finite ones exactly as written, and the special words. */
  datatype Float = Finite(mantissa: int, exponent: int) | PosInf | NegInf | NaN

  function LowerChar(c: char): char {
    if 'A' <= c <= 'Z' then ((c as int) - ('A' as int) + ('a' as int)) as char else c
  }

  /** ASCII lower-casing, used to match `inf`, `infinity`, `nan` and `e`
      whatever their case. */
  function Lower(s: string): (r: string)
    ensures |r| == |s|
    ensures forall k :: 0 <= k < |s| ==> r[k] == LowerChar(s[k])
  {
    seq(|s|, k requires 0 <= k < |s| => LowerChar(s[k]))
  }

  /** Python's `pointfloat` or `digitpart`: `d`, `d.`, `.d` or `d.d`, as the
      digits of the mantissa and the (non-positive) power of ten. */
  function ParsePoint(s: string): Option<(nat, int)> {
    match IndexOf(s, ".")
    case None => if IsDigitPart(s) then Some((DigitsValue(s), 0)) else None
    case Some(i) =>
      var whole := s[..i];
      var frac := s[i + 1..];
      if whole == [] && frac == [] then None
      else if (whole != [] && !IsDigitPart(whole)) || (frac != [] && !IsDigitPart(frac)) then None
      else
        var scale: int := -(DigitCount(frac) as int);
        Some((DigitsValue(whole) * Pow10(DigitCount(frac)) + DigitsValue(frac), scale))
  }

  /** An unsigned decimal with an optional exponent `e[sign]digits` or `E...`. */
  function ParseDecimal(body: string): Option<(nat, int)> {
    match IndexOf(Lower(body), "e")
    case None => ParsePoint(body)
    case Some(i) =>
      var mantissa :- ParsePoint(body[..i]);
      var exponent :- ParseSigned(body[i + 1..]);
      Some((mantissa.0, mantissa.1 + exponent))
  }

  /** Python's `float(text)`: surrounding whitespace, an optional sign, then
      `inf`, `infinity`, `nan` (any case) or a decimal. `None` is the text
      `float()` rejects. */
  function ParseFloat(s: string): Option<Float>
    decreases |s|
  {
    if |s| > 0 && IsNumberSpace(s[0]) then ParseFloat(s[1..])
    else if |s| > 0 && IsNumberSpace(s[|s| - 1]) then ParseFloat(s[..|s| - 1])
    else ParseFloatText(s)
  }

  /** `float(text)` for a text with no surrounding whitespace. */
  function ParseFloatText(s: string): Option<Float> {
    var (negative, body) := SplitSign(s);
    var word := Lower(body);
    if word == "inf" || word == "infinity" then Some(if negative then NegInf else PosInf)
    else if word == "nan" then Some(NaN)
    else
      match ParseDecimal(body)
      case None => None
      case Some(d) => Some(Finite(Signed(negative, d.0), d.1))
  }

  /** `float(text)` as an expression that may raise. */
  function FloatOf(s: string): (r: Result<Float>)
    ensures r.Ok? <==> ParseFloat(s).Some?
    ensures r.Ok? ==> r.value == ParseFloat(s).value
    ensures r.Err? ==> r.error == ValueError
  {
    match ParseFloat(s)
    case None => Err(ValueError)
    case Some(x) => Ok(x)
  }

  /** `x >= num / den` for a non-negative threshold given as a fraction. */
  function AtLeast(x: Float, num: nat, den: nat): bool
    requires den > 0
  {
    match x
    case Finite(m, e) =>
      if e >= 0 then m * Pow10(e) * den >= num else m * den >= num * Pow10(-e)
    case PosInf => true
    case NegInf => false
    case NaN => false
  }

  /** The real number a finite value denotes. */
  ghost function RealOf(m: int, e: int): real {
    if e >= 0 then (m * Pow10(e)) as real else m as real / Pow10(-e) as real
  }

  /** The integer comparison `AtLeast` is the exact comparison of the
      denoted real number with `num / den`. */
  lemma AtLeastIsExact(m: int, e: int, num: nat, den: nat)
    requires den > 0
    ensures AtLeast(Finite(m, e), num, den) <==> RealOf(m, e) >= num as real / den as real
  {
    if e >= 0 {
      ScaleUp(m * Pow10(e), num, den);
    } else {
      ScaleDown(m, Pow10(-e), num, den);
    }
  }

  /** `a * den >= num` is `a >= num / den`. */
  lemma ScaleUp(a: int, num: nat, den: nat)
    requires den > 0
    ensures a * den >= num <==> a as real >= num as real / den as real
  {
    var d := den as real;
    var q := num as real / d;
    assert q * d == num as real;
    IntRealMul(a, den);
    RealScale(a as real, q, d);
  }

  /** `m * den >= num * p` is `m / p >= num / den`. */
  lemma ScaleDown(m: int, p: nat, num: nat, den: nat)
    requires den > 0 && p > 0
    ensures m * den >= num * p <==> m as real / p as real >= num as real / den as real
  {
    var d := den as real;
    var r := p as real;
    var x := m as real / r;
    var q := num as real / d;
    assert x * r == m as real;
    assert q * d == num as real;
    IntRealMul(m, den);
    IntRealMul(num, p);
    RealScale(x, q, d * r);
    assert x * (d * r) == (x * r) * d;
    assert q * (d * r) == (q * d) * r;
  }

  lemma IntRealMul(a: int, b: int)
    ensures (a * b) as real == a as real * b as real
  {
  }

  lemma RealScale(x: real, y: real, k: real)
    requires k > 0.0
    ensures x >= y <==> x * k >= y * k
  {
    if x >= y {
      assert (x - y) * k >= 0.0;
    } else {
      assert (y - x) * k > 0.0;
    }
  }

  /** Python's `n / d >= num / den` where `n / d` is a true division of two
      read counts with a non-zero sum `d` (the case `d == 0` raises before the
      comparison). */
  function RatioAtLeast(n: int, d: int, num: nat, den: nat): bool
    requires d != 0 && den > 0
  {
    if d > 0 then n * den >= num * d else n * den <= num * d
  }

  /** `RatioAtLeast` is the exact comparison of the quotient with `num / den`. */
  lemma RatioAtLeastIsExact(n: int, d: int, num: nat, den: nat)
    requires d != 0 && den > 0
    ensures RatioAtLeast(n, d, num, den) <==> n as real / d as real >= num as real / den as real
  {
    if d > 0 {
      ScaleDown(n, d, num, den);
    } else {
      ScaleDown(-n, -d, num, den);
      assert (-n) as real / (-d) as real == n as real / d as real;
    }
  }
}
