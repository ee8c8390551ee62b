/** String helpers the record handlers are built on: decimal formatting as
    Python's `str(n)` and `format(n, "05d")` produce it, decimal parsing as
    Python's `int(text)` accepts it, and the second piece of `str.split`. */
module Text {

  datatype Option<+T> = None | Some(value: T)

  predicate IsDigit(c: char) { '0' <= c <= '9' }

  predicate AllDigits(s: string) { forall i :: 0 <= i < |s| ==> IsDigit(s[i]) }

  function DigitChar(d: nat): (c: char)
    requires d < 10
    ensures IsDigit(c) && c as int - '0' as int == d
  {
    ('0' as int + d) as char
  }

  function DigitValue(c: char): nat
    requires IsDigit(c)
  {
    c as int - '0' as int
  }

  /** Decimal digits of `n`, most significant first, without leading zeros. */
  function NatDigits(n: nat): (s: string)
    ensures |s| >= 1 && AllDigits(s)
    ensures |s| > 1 ==> s[0] != '0'
  {
    if n < 10 then [DigitChar(n)] else NatDigits(n / 10) + [DigitChar(n % 10)]
  }

  /** The number a string of decimal digits denotes; leading zeros add nothing. */
  function DigitsValue(s: string): nat
    requires AllDigits(s)
  {
    if s == [] then 0 else DigitsValue(s[..|s| - 1]) * 10 + DigitValue(s[|s| - 1])
  }

  lemma {:induction false} DigitsRoundTrip(n: nat)
    ensures DigitsValue(NatDigits(n)) == n
  {
    if n >= 10 {
      var s := NatDigits(n);
      assert s[..|s| - 1] == NatDigits(n / 10);
      DigitsRoundTrip(n / 10);
    }
  }

  function Zeros(k: nat): (s: string)
    ensures |s| == k && AllDigits(s)
  {
    seq(k, _ => '0')
  }

  lemma {:induction false} LeadingZerosValue(k: nat, s: string)
    requires AllDigits(s)
    ensures DigitsValue(Zeros(k) + s) == DigitsValue(s)
  {
    if s == [] {
      assert Zeros(k) + s == Zeros(k);
      ZerosValue(k);
    } else {
      var t := Zeros(k) + s;
      assert t[..|t| - 1] == Zeros(k) + s[..|s| - 1];
      LeadingZerosValue(k, s[..|s| - 1]);
    }
  }

  lemma {:induction false} ZerosValue(k: nat)
    ensures DigitsValue(Zeros(k)) == 0
  {
    if k > 0 {
      assert Zeros(k)[..k - 1] == Zeros(k - 1);
      ZerosValue(k - 1);
    }
  }

  /** Left-pads a digit string with zeros to at least `width` characters. */
  function ZeroPad(s: string, width: nat): (r: string)
    ensures |r| >= width && |r| >= |s|
    ensures AllDigits(s) ==> AllDigits(r)
  {
    if |s| < width then Zeros(width - |s|) + s else s
  }

  /** `str(n)` for an integer. */
  function IntToString(n: int): (s: string)
    ensures |s| >= 1
    ensures n < 0 <==> s[0] == '-'
  {
    if n < 0 then "-" + NatDigits(-n) else NatDigits(n)
  }

  /** `format(n, "0<width>d")`: the sign counts towards the width and the
      zeros go between the sign and the digits. */
  function FormatPadded(n: int, width: nat): (s: string)
    ensures |s| >= 1 && |s| >= width
    ensures n < 0 <==> s[0] == '-'
    ensures AllDigits(s[1..])
  {
    if n < 0 then "-" + ZeroPad(NatDigits(-n), if width > 0 then width - 1 else 0)
    else ZeroPad(NatDigits(n), width)
  }

  lemma PaddedShape(n: nat, width: nat)
    ensures AllDigits(FormatPadded(n, width))
    ensures |FormatPadded(n, width)| >= width
    ensures DigitsValue(FormatPadded(n, width)) == n
  {
    var d := NatDigits(n);
    DigitsRoundTrip(n);
    if |d| < width {
      LeadingZerosValue(width - |d|, d);
    }
  }

  /** The characters Python's `str.isspace` accepts, which `int()` strips
      from both ends of its argument. */
  predicate IsSpace(c: char)
  {
    c == ' ' || '\U{9}' <= c <= '\U{d}' || '\U{1c}' <= c <= '\U{1f}' || c == '\U{85}' || c == '\U{a0}'
    || c == '\U{1680}' || '\U{2000}' <= c <= '\U{200a}' || c == '\U{2028}' || c == '\U{2029}'
    || c == '\U{202f}' || c == '\U{205f}' || c == '\U{3000}'
  }

  function TrimLeft(s: string): (r: string)
    ensures r != [] ==> !IsSpace(r[0])
  {
    if s != [] && IsSpace(s[0]) then TrimLeft(s[1..]) else s
  }

  function TrimRight(s: string): (r: string)
    ensures r != [] ==> !IsSpace(r[|r| - 1])
  {
    if s != [] && IsSpace(s[|s| - 1]) then TrimRight(s[..|s| - 1]) else s
  }

  /** `str.strip()`. */
  function Strip(s: string): string
  {
    TrimRight(TrimLeft(s))
  }

  /** A decimal literal as `int()` accepts it after the sign: digits, with
      single underscores allowed between two digits. */
  predicate IsNumeral(s: string)
  {
    && |s| > 0
    && IsDigit(s[0])
    && IsDigit(s[|s| - 1])
    && (forall i :: 0 <= i < |s| ==> IsDigit(s[i]) || s[i] == '_')
    && (forall i :: 0 <= i < |s| - 1 && s[i] == '_' ==> s[i + 1] != '_')
  }

  function DropUnderscores(s: string): (r: string)
    requires forall i :: 0 <= i < |s| ==> IsDigit(s[i]) || s[i] == '_'
    ensures AllDigits(r)
  {
    if s == [] then []
    else (if s[0] == '_' then [] else [s[0]]) + DropUnderscores(s[1..])
  }

  function NumeralValue(s: string): nat
    requires IsNumeral(s)
  {
    DigitsValue(DropUnderscores(s))
  }

  /** Python's `int(text)` in base 10; `None` stands for the `ValueError`
      it raises. */
  function ParseInt(text: string): (r: Option<int>)
    ensures r.Some? ==> |Strip(text)| > 0
  {
    ParseStripped(Strip(text))
  }

  /** `int()` after the surrounding white space is gone: an optional sign,
      then a numeral. */
  function ParseStripped(t: string): (r: Option<int>)
    ensures r.Some? ==> |t| > 0
  {
    if |t| > 0 && (t[0] == '+' || t[0] == '-') then
      if IsNumeral(t[1..]) then
        var v: int := NumeralValue(t[1..]);
        Some(if t[0] == '-' then -v else v)
      else None
    else if IsNumeral(t) then Some(NumeralValue(t))
    else None
  }

  lemma {:induction false} DropUnderscoresOfDigits(s: string)
    requires AllDigits(s)
    ensures DropUnderscores(s) == s
  {
    if s != [] {
      DropUnderscoresOfDigits(s[1..]);
    }
  }

  lemma StripNoSpace(s: string)
    requires forall i :: 0 <= i < |s| ==> !IsSpace(s[i])
    ensures Strip(s) == s
  {
  }

  lemma DigitsAreNumeral(s: string)
    requires |s| > 0 && AllDigits(s)
    ensures IsNumeral(s) && NumeralValue(s) == DigitsValue(s)
  {
    DropUnderscoresOfDigits(s);
  }

  lemma ParseDigits(s: string)
    requires |s| > 0 && AllDigits(s)
    ensures ParseInt(s) == Some(DigitsValue(s))
  {
    StripNoSpace(s);
    DigitsAreNumeral(s);
  }

  lemma StripSigned(body: string)
    requires AllDigits(body)
    ensures Strip("-" + body) == "-" + body
  {
    var s := "-" + body;
    forall i | 0 <= i < |s| ensures !IsSpace(s[i]) {
      if i > 0 { assert s[i] == body[i - 1]; }
    }
    StripNoSpace(s);
  }

  lemma ParseMinus(s: string)
    requires |s| > 0 && s[0] == '-' && IsNumeral(s[1..])
    ensures ParseStripped(s) == Some(-(NumeralValue(s[1..]) as int))
  {
  }

  /** `int(str(n)) == n`: the text `str` writes reads back as the number. */
  lemma IntToStringRoundTrip(n: int)
    ensures ParseInt(IntToString(n)) == Some(n)
  {
    if n < 0 {
      var s := IntToString(n);
      assert s[1..] == NatDigits(-n);
      DigitsRoundTrip(-n);
      ParseNegative(s, -n);
    } else {
      DigitsRoundTrip(n);
      ParseDigits(NatDigits(n));
    }
  }

  /** `int()` of a minus sign followed by the digits of `v` is `-v`. */
  lemma ParseNegative(s: string, v: nat)
    requires |s| > 1 && s[0] == '-' && AllDigits(s[1..]) && DigitsValue(s[1..]) == v
    ensures ParseInt(s) == Some(-(v as int))
  {
    var body := s[1..];
    assert s == "-" + body;
    DigitsAreNumeral(body);
    ParseMinus(s);
    StripSigned(body);
    assert ParseInt(s) == ParseStripped(s);
  }

  /** `int()` reads back every zero-padded number `format` writes. */
  lemma ParsePadded(n: int, width: nat)
    ensures ParseInt(FormatPadded(n, width)) == Some(n)
  {
    if n < 0 {
      ParsePaddedNegative(n, width);
    } else {
      PaddedShape(n, width);
      ParseDigits(FormatPadded(n, width));
    }
  }

  lemma ParsePaddedNegative(n: int, width: nat)
    requires n < 0
    ensures ParseInt(FormatPadded(n, width)) == Some(n)
  {
    NegativeFormat(n, width);
    PaddedShape(-n, if width > 0 then width - 1 else 0);
    ParseNegative(FormatPadded(n, width), -n);
  }

  /** The negative format is the sign followed by the positive one, one
      character narrower. */
  lemma NegativeFormat(n: int, width: nat)
    requires n < 0
    ensures var f := FormatPadded(n, width);
            |f| > 1 && f[0] == '-' && f[1..] == FormatPadded(-n, if width > 0 then width - 1 else 0)
  {
    var f := FormatPadded(n, width);
    var body := FormatPadded(-n, if width > 0 then width - 1 else 0);
    assert f == "-" + body;
    assert f[1..] == body;
  }

  lemma SliceOfSlice(s: string, a: nat, b: nat, c: nat, d: nat)
    requires a <= b <= |s| && c <= d <= b - a
    ensures s[a..b][c..d] == s[a + c..a + d]
  {
    assert forall i :: 0 <= i < d - c ==> s[a..b][c..d][i] == s[a + c + i];
  }

  /** `pat` occurs in `s` starting at index `i`. */
  predicate OccursAt(s: string, pat: string, i: nat)
  {
    i + |pat| <= |s| && s[i..i + |pat|] == pat
  }

  /** A mismatch at one offset rules out an occurrence. */
  lemma Mismatch(s: string, pat: string, j: nat, k: nat)
    requires k < |pat| && j + k < |s| && s[j + k] != pat[k]
    ensures !OccursAt(s, pat, j)
  {
    if j + |pat| <= |s| {
      assert s[j..j + |pat|][k] == s[j + k];
    }
  }

  /** `s.find(pat, from)`: the first occurrence at or after `from`. */
  function FindFrom(s: string, pat: string, from: nat): (r: Option<nat>)
    ensures r.Some? ==> from <= r.value && OccursAt(s, pat, r.value)
    ensures r.Some? ==> forall j :: from <= j < r.value ==> !OccursAt(s, pat, j)
    ensures r.None? ==> forall j :: from <= j ==> !OccursAt(s, pat, j)
    decreases |s| - from
  {
    if from + |pat| > |s| then None
    else if s[from..from + |pat|] == pat then Some(from)
    else FindFrom(s, pat, from + 1)
  }

  /** `s.split(sep)[1]`: the text between the first and the second
      occurrence of `sep` (or the end); `None` stands for the `IndexError`
      raised when `sep` does not occur at all. */
  function SplitSecond(s: string, sep: string): (r: Option<string>)
    requires |sep| > 0
    ensures r.None? <==> forall j :: !OccursAt(s, sep, j)
    ensures r.Some? ==> forall j :: !OccursAt(r.value, sep, j)
    ensures r.Some? ==>
              && FindFrom(s, sep, 0).Some?
              && var start := FindFrom(s, sep, 0).value + |sep|;
                 var end := start + |r.value|;
                 && end <= |s| && s[start..end] == r.value
                 && (end == |s| || OccursAt(s, sep, end))
  {
    match FindFrom(s, sep, 0)
    case None => None
    case Some(i) =>
      var start := i + |sep|;
      match FindFrom(s, sep, start)
      case None =>
        OccursInSlice(s, sep, start, |s|);
        assert s[start..] == s[start..|s|];
        Some(s[start..])
      case Some(k) =>
        OccursInSlice(s, sep, start, k);
        Some(s[start..k])
  }

  /** An occurrence inside a slice is an occurrence in the whole text. */
  lemma OccursInSlice(s: string, pat: string, a: nat, b: nat)
    requires a <= b <= |s|
    ensures forall j: nat :: OccursAt(s[a..b], pat, j) ==> OccursAt(s, pat, a + j)
  {
    forall j: nat | OccursAt(s[a..b], pat, j) ensures OccursAt(s, pat, a + j) {
      SliceOfSlice(s, a, b, j, j + |pat|);
    }
  }
}
