/** Calendar dates as the handlers read them from request bodies with
    `strptime(text, "%Y-%m-%d")` and write them with `strftime`. */
module Dates {
  import opened Text

  datatype Date = Date(year: int, month: int, day: int)

  predicate IsLeap(year: int)
  {
    year % 4 == 0 && (year % 100 != 0 || year % 400 == 0)
  }

  function DaysInMonth(year: int, month: int): int
    requires 1 <= month <= 12
  {
    if month == 2 then (if IsLeap(year) then 29 else 28)
    else if month == 4 || month == 6 || month == 9 || month == 11 then 30
    else 31
  }

  /** The dates Python's `datetime.date` accepts. */
  predicate ValidDate(d: Date)
  {
    && 1 <= d.year <= 9999
    && 1 <= d.month <= 12
    && 1 <= d.day <= DaysInMonth(d.year, d.month)
  }

  predicate NonZeroDigit(c: char) { '1' <= c <= '9' }

  /** The month field as `strptime`'s pattern `1[0-2]|0[1-9]|[1-9]` matches it. */
  predicate MonthToken(m: string)
  {
    || (|m| == 1 && NonZeroDigit(m[0]))
    || (|m| == 2 && m[0] == '0' && NonZeroDigit(m[1]))
    || (|m| == 2 && m[0] == '1' && '0' <= m[1] <= '2')
  }

  /** The day field as `strptime`'s pattern `3[01]|[12]\d|0[1-9]|[1-9]| [1-9]`
      matches it, the day being the last field of the format. */
  predicate DayToken(d: string)
  {
    || (|d| == 1 && NonZeroDigit(d[0]))
    || (|d| == 2 && d[0] == '3' && (d[1] == '0' || d[1] == '1'))
    || (|d| == 2 && (d[0] == '1' || d[0] == '2') && IsDigit(d[1]))
    || (|d| == 2 && d[0] == '0' && NonZeroDigit(d[1]))
    || (|d| == 2 && d[0] == ' ' && NonZeroDigit(d[1]))
  }

  function TokenValue(t: string): nat
    requires MonthToken(t) || DayToken(t)
  {
    if t[0] == ' ' then DigitValue(t[1]) else DigitsValue(t)
  }

  /** `datetime.strptime(text, "%Y-%m-%d").date()`; `None` stands for the
      `ValueError` it raises on text of another shape or on a day the
      calendar does not have. */
  function ParseDate(text: string): (r: Option<Date>)
    ensures r.Some? ==> ValidDate(r.value)
  {
    if |text| < 8 || !AllDigits(text[..4]) || text[4] != '-' then None
    else if text[6] != '-' && text[7] != '-' then None
    else
      var dash := if text[6] == '-' then 6 else 7;
      var m := text[5..dash];
      var d := text[dash + 1..];
      if !MonthToken(m) || !DayToken(d) then None
      else
        var date := Date(DigitsValue(text[..4]), TokenValue(m), TokenValue(d));
        if ValidDate(date) then Some(date) else None
  }

  /** `date.strftime("%Y-%m-%d")`, the year written with four digits. */
  function FormatDate(d: Date): (r: string)
    ensures |r| >= 10
  {
    FormatPadded(d.year, 4) + "-" + FormatPadded(d.month, 2) + "-" + FormatPadded(d.day, 2)
  }

  lemma {:induction false} NatDigitsLength(n: nat, k: nat, bound: nat)
    requires 1 <= k && n < bound && bound == Pow10(k)
    ensures |NatDigits(n)| <= k
  {
    if n >= 10 {
      assert k != 1 by {
        assert Pow10(1) == 10;
      }
      assert n / 10 < Pow10(k - 1);
      NatDigitsLength(n / 10, k - 1, Pow10(k - 1));
    }
  }

  function Pow10(k: nat): nat
  {
    if k == 0 then 1 else 10 * Pow10(k - 1)
  }

  lemma PaddedExact(n: nat, k: nat)
    requires 1 <= k && n < Pow10(k)
    ensures |FormatPadded(n, k)| == k
    ensures AllDigits(FormatPadded(n, k)) && DigitsValue(FormatPadded(n, k)) == n
  {
    NatDigitsLength(n, k, Pow10(k));
    PaddedShape(n, k);
  }

  lemma TwoDigits(s: string)
    requires |s| == 2 && AllDigits(s)
    ensures DigitsValue(s) == 10 * DigitValue(s[0]) + DigitValue(s[1])
  {
    var p := s[..1];
    assert p[..0] == [] && p[0] == s[0];
    assert DigitsValue(p) == DigitValue(s[0]);
  }

  lemma MonthTokenOf(n: nat)
    requires 1 <= n <= 12
    ensures MonthToken(FormatPadded(n, 2)) && TokenValue(FormatPadded(n, 2)) == n
  {
    assert Pow10(2) == 100;
    PaddedExact(n, 2);
    TwoDigits(FormatPadded(n, 2));
  }

  lemma DayTokenOf(n: nat)
    requires 1 <= n <= 31
    ensures DayToken(FormatPadded(n, 2)) && TokenValue(FormatPadded(n, 2)) == n
  {
    assert Pow10(2) == 100;
    PaddedExact(n, 2);
    TwoDigits(FormatPadded(n, 2));
  }

  /** A date the handlers write with `strftime` parses back to itself. */
  lemma ParseFormatDate(d: Date)
    requires ValidDate(d)
    ensures ParseDate(FormatDate(d)) == Some(d)
  {
    assert Pow10(4) == 10000;
    PaddedExact(d.year, 4);
    MonthTokenOf(d.month);
    DayTokenOf(d.day);
    var y, m, dd := FormatPadded(d.year, 4), FormatPadded(d.month, 2), FormatPadded(d.day, 2);
    var s := FormatDate(d);
    assert s == y + "-" + m + "-" + dd;
    assert s[..4] == y;
    assert s[4] == '-' && s[7] == '-';
    assert s[6] == m[1];
    assert s[5..7] == m;
    assert s[8..] == dd;
  }
}
