/** `DateFormatter.FormatWithOrdinal`: "12th November 2025" for a date,
    "" for no date. */
module DateFormatter {
  import opened Wrappers

  /** The calendar fields of a `DateTime`. */
  datatype Date = Date(year: int, month: int, day: int)

  predicate IsLeapYear(year: int) {
    year % 4 == 0 && (year % 100 != 0 || year % 400 == 0)
  }

  function DaysInMonth(year: int, month: int): int
    requires 1 <= month <= 12
  {
    if month == 2 then (if IsLeapYear(year) then 29 else 28)
    else if month == 4 || month == 6 || month == 9 || month == 11 then 30
    else 31
  }

  /** The dates a `DateTime` can hold: years 1 to 9999 of the Gregorian calendar. */
  predicate ValidDate(d: Date) {
    && 1 <= d.year <= 9999
    && 1 <= d.month <= 12
    && 1 <= d.day <= DaysInMonth(d.year, d.month)
  }

  type CalendarDate = d: Date | ValidDate(d) witness Date(1, 1, 1)

  /** Full month names of the invariant culture. */
  const MonthNames: seq<string> := [
    "January", "February", "March", "April", "May", "June",
    "July", "August", "September", "October", "November", "December"]

  /** `date.ToString("MMMM", CultureInfo.InvariantCulture)`. The name is
      non-empty, has no space, and names its month unambiguously. */
  function MonthName(month: int): (r: string)
    requires 1 <= month <= 12
    ensures |r| >= 1
    ensures forall i :: 0 <= i < |r| ==> NotSpace(r[i])
    ensures MonthNumber(r) == Some(month)
  {
    MonthNamesShape();
    MonthNamesDistinct();
    FindNameOf(MonthNames, month - 1, 0);
    MonthNames[month - 1]
  }

  /** Every name in the table is a non-empty word. */
  lemma MonthNamesShape()
    ensures forall k, i :: 0 <= k < |MonthNames| && 0 <= i < |MonthNames[k]| ==> NotSpace(MonthNames[k][i])
    ensures forall k :: 0 <= k < |MonthNames| ==> |MonthNames[k]| >= 1
  {
  }

  /** The day-of-month suffix: "th" unless the last digit is 1, 2 or 3 and the
      day is not 11, 12 or 13 respectively. */
  function OrdinalSuffix(day: nat): (r: string)
    ensures r == "st" <==> day % 10 == 1 && day != 11
    ensures r == "nd" <==> day % 10 == 2 && day != 12
    ensures r == "rd" <==> day % 10 == 3 && day != 13
    ensures r == "th" <==> !(day % 10 == 1 && day != 11) && !(day % 10 == 2 && day != 12)
                           && !(day % 10 == 3 && day != 13)
    ensures r in {"st", "nd", "rd", "th"}
  {
    if day % 10 == 1 && day != 11 then "st"
    else if day % 10 == 2 && day != 12 then "nd"
    else if day % 10 == 3 && day != 13 then "rd"
    else "th"
  }

  /** Reference rule for English ordinals of any natural number: numbers
      ending in 11, 12 or 13 take "th"; otherwise the last digit decides. */
  function EnglishOrdinalSuffix(n: nat): string {
    if 11 <= n % 100 <= 13 then "th"
    else if n % 10 == 1 then "st"
    else if n % 10 == 2 then "nd"
    else if n % 10 == 3 then "rd"
    else "th"
  }

  /** For every day of a month, the formatter's suffix is the English one. */
  lemma SuffixIsEnglishOrdinal(day: nat)
    requires 1 <= day <= 31
    ensures OrdinalSuffix(day) == EnglishOrdinalSuffix(day)
  {
  }

  predicate IsDigit(c: char) {
    '0' <= c <= '9'
  }

  predicate AllDigits(s: string) {
    forall i :: 0 <= i < |s| ==> IsDigit(s[i])
  }

  function DigitChar(d: nat): (c: char)
    requires d < 10
    ensures IsDigit(c)
  {
    (('0' as int) + d) as char
  }

  function DigitValue(c: char): nat
    requires IsDigit(c)
  {
    (c as int) - ('0' as int)
  }

  /** `int.ToString()` of a non-negative number: its decimal digits, without
      leading zeros. */
  function DecimalString(n: nat): (r: string)
    ensures |r| >= 1
    ensures AllDigits(r)
    ensures r[0] == '0' ==> n == 0
  {
    if n < 10 then [DigitChar(n)] else DecimalString(n / 10) + [DigitChar(n % 10)]
  }

  /** The number a string of decimal digits denotes. */
  function DecimalValue(s: string): nat
    requires AllDigits(s)
  {
    if s == [] then 0 else 10 * DecimalValue(s[..|s| - 1]) + DigitValue(s[|s| - 1])
  }

  lemma {:induction false} DecimalRoundTrip(n: nat)
    ensures DecimalValue(DecimalString(n)) == n
  {
    var s := DecimalString(n);
    if n >= 10 {
      DecimalRoundTrip(n / 10);
      assert s[..|s| - 1] == DecimalString(n / 10);
    } else {
      assert s[..|s| - 1] == [];
    }
  }

  /** The interpolated string `$"{day}{suffix} {month} {year}"`, or "" when
      there is no date. */
  function FormatWithOrdinal(date: Option<CalendarDate>): (r: string)
    ensures date.None? <==> r == ""
    ensures date.Some? ==>
              r == DecimalString(date.value.day) + OrdinalSuffix(date.value.day) + " "
                   + MonthName(date.value.month) + " " + DecimalString(date.value.year)
  {
    match date
    case None => ""
    case Some(d) =>
      DecimalString(d.day) + OrdinalSuffix(d.day) + " " + MonthName(d.month) + " " + DecimalString(d.year)
  }

  // Reading a formatted date back, to show the format loses nothing.

  predicate NotSpace(c: char) {
    c != ' '
  }

  /** Length of the longest prefix of `s` whose characters all satisfy `p`. */
  function Span(s: string, p: char -> bool): (n: nat)
    ensures n <= |s|
    ensures forall i :: 0 <= i < n ==> p(s[i])
    ensures n < |s| ==> !p(s[n])
  {
    if s == [] || !p(s[0]) then 0 else 1 + Span(s[1..], p)
  }

  lemma {:induction false} SpanConcat(a: string, b: string, p: char -> bool)
    requires forall i :: 0 <= i < |a| ==> p(a[i])
    ensures Span(a + b, p) == |a| + Span(b, p)
  {
    if a == [] {
      assert a + b == b;
    } else {
      assert (a + b)[1..] == a[1..] + b;
      SpanConcat(a[1..], b, p);
    }
  }

  /** The month whose invariant-culture name is `name`: its position in the
      name table, or None when it names no month. */
  function MonthNumber(name: string): (r: Option<int>)
    ensures r.Some? ==> 1 <= r.value <= 12 && MonthNames[r.value - 1] == name
  {
    match FindName(MonthNames, name, 0)
    case None => None
    case Some(k) => Some(k + 1)
  }

  /** The first position at or after `i` holding `name`. */
  function FindName(names: seq<string>, name: string, i: nat): (r: Option<nat>)
    requires i <= |names|
    ensures r.Some? ==> i <= r.value < |names| && names[r.value] == name
    decreases |names| - i
  {
    if i == |names| then None
    else if names[i] == name then Some(i)
    else FindName(names, name, i + 1)
  }

  /** No two months share a name. */
  lemma MonthNamesDistinct()
    ensures forall i, j :: 0 <= i < j < |MonthNames| ==> MonthNames[i] != MonthNames[j]
  {
  }

  /** In a table without repeats, a search started at or before a name's
      position finds that position. */
  lemma {:induction false} FindNameOf(names: seq<string>, k: nat, i: nat)
    requires forall a, b :: 0 <= a < b < |names| ==> names[a] != names[b]
    requires i <= k < |names|
    ensures FindName(names, names[k], i) == Some(k)
    decreases k - i
  {
    if i < k {
      assert names[i] != names[k];
      FindNameOf(names, k, i + 1);
    }
  }

  /** Reads "<month name> <year>" into a month number and a year. */
  function ParseMonthYear(rest: string): Option<(int, nat)> {
    var w := Span(rest, NotSpace);
    if w == |rest| then None
    else
      var month := MonthNumber(rest[..w]);
      var yearText := rest[w + 1..];
      if month.None? || !AllDigits(yearText) then None
      else Some((month.value, DecimalValue(yearText)))
  }

  /** Reads "<day><suffix> <month name> <year>" back into a date. */
  function ParseFormatted(s: string): Option<CalendarDate> {
    var n := Span(s, IsDigit);
    if n == 0 || |s| < n + 3 || s[n + 2] != ' ' then None
    else match ParseMonthYear(s[n + 3..])
      case None => None
      case Some((month, year)) =>
        var d := Date(year, month, DecimalValue(s[..n]));
        if ValidDate(d) && s[n..n + 2] == OrdinalSuffix(d.day) then Some(d) else None
  }

  lemma ParseMonthYearParts(name: string, yearText: string, month: int)
    requires forall i :: 0 <= i < |name| ==> NotSpace(name[i])
    requires MonthNumber(name) == Some(month)
    requires AllDigits(yearText)
    ensures ParseMonthYear(name + " " + yearText) == Some((month, DecimalValue(yearText)))
  {
    var rest := name + " " + yearText;
    assert rest == name + (" " + yearText);
    SpanConcat(name, " " + yearText, NotSpace);
    assert (" " + yearText)[0] == ' ';
    var w := Span(rest, NotSpace);
    assert w == |name| < |rest|;
    assert rest[..w] == name;
    assert rest[w + 1..] == yearText;
  }

  lemma MonthYearRoundTrip(month: int, year: nat)
    requires 1 <= month <= 12
    ensures ParseMonthYear(MonthName(month) + " " + DecimalString(year)) == Some((month, year))
  {
    ParseMonthYearParts(MonthName(month), DecimalString(year), month);
    DecimalRoundTrip(year);
  }

  lemma SplitFormatted(dayText: string, suffix: string, rest: string)
    requires |dayText| >= 1 && AllDigits(dayText)
    requires |suffix| == 2 && !IsDigit(suffix[0])
    ensures Span(dayText + suffix + " " + rest, IsDigit) == |dayText|
    ensures (dayText + suffix + " " + rest)[..|dayText|] == dayText
    ensures (dayText + suffix + " " + rest)[|dayText|..|dayText| + 2] == suffix
    ensures (dayText + suffix + " " + rest)[|dayText| + 2] == ' '
    ensures (dayText + suffix + " " + rest)[|dayText| + 3..] == rest
  {
    var s := dayText + suffix + " " + rest;
    assert s == dayText + (suffix + " " + rest);
    SpanConcat(dayText, suffix + " " + rest, IsDigit);
    assert (suffix + " " + rest)[0] == suffix[0];
  }

  /** Formatting is undone by ParseFormatted. */
  lemma FormatRoundTrip(d: CalendarDate)
    ensures ParseFormatted(FormatWithOrdinal(Some(d))) == Some(d)
  {
    var dayText := DecimalString(d.day);
    var suffix := OrdinalSuffix(d.day);
    var rest := MonthName(d.month) + " " + DecimalString(d.year);
    var s := FormatWithOrdinal(Some(d));
    assert s == dayText + suffix + " " + rest;
    SplitFormatted(dayText, suffix, rest);
    MonthYearRoundTrip(d.month, d.year);
    DecimalRoundTrip(d.day);
  }

  /** Different dates never format to the same text. */
  lemma FormatInjective(d1: CalendarDate, d2: CalendarDate)
    requires FormatWithOrdinal(Some(d1)) == FormatWithOrdinal(Some(d2))
    ensures d1 == d2
  {
    FormatRoundTrip(d1);
    FormatRoundTrip(d2);
  }

  /** Examples of the suffix rule and the output shape. */
  lemma OrdinalExamples()
    ensures FormatWithOrdinal(None) == ""
    ensures OrdinalSuffix(1) == "st" && OrdinalSuffix(2) == "nd" && OrdinalSuffix(3) == "rd"
    ensures OrdinalSuffix(11) == "th" && OrdinalSuffix(12) == "th" && OrdinalSuffix(13) == "th"
    ensures OrdinalSuffix(21) == "st" && OrdinalSuffix(22) == "nd"
  {
  }

  lemma DecimalExamples()
    ensures DecimalString(12) == "12"
    ensures DecimalString(2025) == "2025"
  {
    assert DecimalString(1) == "1";
    assert DecimalString(2) == "2";
    assert DecimalString(20) == "20";
    assert DecimalString(202) == "202";
  }

  lemma MonthNameExample()
    ensures MonthName(11) == "November"
  {
  }

  lemma FormatExample()
    ensures FormatWithOrdinal(Some(Date(2025, 11, 12))) == "12th November 2025"
  {
    DecimalExamples();
    MonthNameExample();
    var day := DecimalString(12) + OrdinalSuffix(12);
    assert day == "12th";
    var month := day + " " + MonthName(11);
    assert month == "12th November";
    assert month + " " + DecimalString(2025) == "12th November 2025";
  }
}
