/** The two pieces of logic in the web front end: the `%Y-%m-%d` text given to
    the date inputs as their bounds, and the symptom selected after a file
    loads. */
module Frontend {
  import opened Wrappers
  import opened Calendar
  import opened Digits
  import opened DataManager
  import opened Provider

  // ---------------------------------------------------------------------------
  // `format_date_for_html`.

  /** chrono's `%Y`: four zero-padded digits for years 0 to 9999; any other
      year gets an explicit sign and at least four digits. */
  function FormatYear(y: int): (r: string)
    requires MinYear <= y <= MaxYear
    ensures 0 <= y < 10000 ==> |r| == 4 && AllDigits(r) && DecimalValue(r) == y
    ensures !(0 <= y < 10000) ==> 5 <= |r| <= 7 && r[0] == (if y < 0 then '-' else '+')
    ensures !(0 <= y < 10000) ==> AllDigits(r[1..]) && DecimalValue(r[1..]) == (if y < 0 then -y else y)
  {
    if 0 <= y < 10000 then
      FixedDigitsValue(y, 4);
      FixedDigits(y, 4)
    else
      var a := if y < 0 then -y else y;
      var width := if a < 10000 then 4 else if a < 100000 then 5 else 6;
      assert Pow10(4) == 10000 && Pow10(5) == 100000 && Pow10(6) == 1000000;
      FixedDigitsValue(a, width);
      var r := (if y < 0 then "-" else "+") + FixedDigits(a, width);
      assert r[1..] == FixedDigits(a, width);
      r
  }

  /** `%Y-%m-%d`, month and day zero-padded to two digits. */
  function FormatDate(d: Date): string {
    FormatYear(d.year) + "-" + FixedDigits(d.month, 2) + "-" + FixedDigits(d.day, 2)
  }

  /** `format_date_for_html`: only the date part of the date-time is written. */
  function FormatDateForHtml(t: DateTime): (r: string)
    ensures 0 <= t.date.year < 10000 ==> |r| == 10 && r[4] == '-' && r[7] == '-'
    ensures 0 <= t.date.year < 10000 ==> ParseHtmlDate(r) == Some(t.date)
  {
    if 0 <= t.date.year < 10000 then
      FormatDateRoundTrip(t.date);
      FormatDate(t.date)
    else
      FormatDate(t.date)
  }

  /** A date input's value: four digits, '-', two digits, '-', two digits,
      naming a real date. */
  function ParseHtmlDate(s: string): (r: Option<Date>)
    ensures r.Some? ==> |s| == 10 && 0 <= r.value.year < 10000 && FormatDate(r.value) == s
  {
    if |s| == 10 && s[4] == '-' && s[7] == '-'
       && AllDigits(s[..4]) && AllDigits(s[5..7]) && AllDigits(s[8..])
    then
      var r := FromYmd(DecimalValue(s[..4]), DecimalValue(s[5..7]), DecimalValue(s[8..]));
      if r.Some? then
        ParseThenFormat(s, r.value);
        r
      else None
    else None
  }

  lemma ParseThenFormat(s: string, d: Date)
    requires |s| == 10 && s[4] == '-' && s[7] == '-'
    requires AllDigits(s[..4]) && AllDigits(s[5..7]) && AllDigits(s[8..])
    requires d == Ymd(DecimalValue(s[..4]), DecimalValue(s[5..7]), DecimalValue(s[8..]))
    ensures 0 <= d.year < 10000 && FormatDate(d) == s
  {
    FourDigitYear(s[..4]);
    DecimalValueFixed(s[5..7]);
    DecimalValueFixed(s[8..]);
    assert FormatDate(d) == s[..4] + "-" + s[5..7] + "-" + s[8..];
    assert s == s[..4] + "-" + s[5..7] + "-" + s[8..];
  }

  /** Four digits are the `%Y` rendering of their own value. */
  lemma FourDigitYear(y: string)
    requires |y| == 4 && AllDigits(y)
    ensures 0 <= DecimalValue(y) < 10000 && FormatYear(DecimalValue(y)) == y
  {
    DecimalValueFixed(y);
    assert Pow10(4) == 10000;
  }

  /** A date with a four-digit year is written as ten characters that read
      back as that date. */
  lemma FormatDateRoundTrip(d: Date)
    requires 0 <= d.year < 10000
    ensures |FormatDate(d)| == 10 && FormatDate(d)[4] == '-' && FormatDate(d)[7] == '-'
    ensures ParseHtmlDate(FormatDate(d)) == Some(d)
  {
    var s := FormatDate(d);
    var y := FixedDigits(d.year, 4);
    var m := FixedDigits(d.month, 2);
    var dd := FixedDigits(d.day, 2);
    assert s == y + "-" + m + "-" + dd;
    assert s[..4] == y && s[5..7] == m && s[8..] == dd;
    assert |s| == 10 && s[4] == '-' && s[7] == '-';
    FixedDigitsValue(d.year, 4);
    FixedDigitsValue(d.month, 2);
    FixedDigitsValue(d.day, 2);
    assert FromYmd(DecimalValue(s[..4]), DecimalValue(s[5..7]), DecimalValue(s[8..])) == Some(d);
  }

  /** Two date-times on the same day give the same text. */
  lemma SameDaySameText(a: DateTime, b: DateTime)
    requires a.date == b.date
    ensures FormatDateForHtml(a) == FormatDateForHtml(b)
  {
  }

  /** Different dates give different text. */
  lemma FormatDateInjective(a: Date, b: Date)
    requires 0 <= a.year < 10000 && 0 <= b.year < 10000
    ensures FormatDate(a) == FormatDate(b) <==> a == b
  {
    FormatDateRoundTrip(a);
    FormatDateRoundTrip(b);
  }

  /** For four-digit years, comparing the texts as strings (as the date
      inputs' `min` and `max` bounds are compared) is comparing the dates. */
  lemma FormatDateOrder(a: Date, b: Date)
    requires 0 <= a.year < 10000 && 0 <= b.year < 10000
    ensures LexLess(FormatDate(a), FormatDate(b)) <==> DateBefore(a, b)
  {
    FormatDateSplit(a);
    FormatDateSplit(b);
    LexConcat(FixedDigits(a.year, 4), MonthDayText(a), FixedDigits(b.year, 4), MonthDayText(b));
    MonthDayOrder(a, b);
    assert Pow10(4) == 10000;
    FixedDigitsOrder(a.year, b.year, 4);
    FixedDigitsInjective(a.year, b.year, 4);
  }

  /** For a four-digit year, `%Y-%m-%d` is the zero-padded year followed by the rest. */
  lemma FormatDateSplit(d: Date)
    requires 0 <= d.year < 10000
    ensures FormatDate(d) == FixedDigits(d.year, 4) + MonthDayText(d)
  {
    assert FormatYear(d.year) == FixedDigits(d.year, 4);
  }

  /** The part of `%Y-%m-%d` after the year. */
  function MonthDayText(d: Date): string {
    "-" + (FixedDigits(d.month, 2) + ("-" + FixedDigits(d.day, 2)))
  }

  /** After the year, the texts sort and coincide as (month, day) pairs do. */
  lemma MonthDayOrder(a: Date, b: Date)
    ensures LexLess(MonthDayText(a), MonthDayText(b))
            <==> a.month < b.month || (a.month == b.month && a.day < b.day)
    ensures MonthDayText(a) == MonthDayText(b) <==> a.month == b.month && a.day == b.day
  {
    var ma, mb := FixedDigits(a.month, 2), FixedDigits(b.month, 2);
    var da, db := FixedDigits(a.day, 2), FixedDigits(b.day, 2);
    LexConcat("-", ma + ("-" + da), "-", mb + ("-" + db));
    LexConcat(ma, "-" + da, mb, "-" + db);
    LexConcat("-", da, "-", db);
    assert !LexLess("-", "-");
    FixedDigitsOrder(a.month, b.month, 2);
    FixedDigitsOrder(a.day, b.day, 2);
    FixedDigitsInjective(a.month, b.month, 2);
    FixedDigitsInjective(a.day, b.day, 2);
  }

  /** The year -1 is written "-0001": the output is no longer ten characters. */
  lemma NegativeYearIsLonger()
    ensures |FormatDate(Ymd(-1, 1, 1))| == 11 && FormatDate(Ymd(-1, 1, 1))[0] == '-'
  {
  }

  // ---------------------------------------------------------------------------
  // The default symptom selection.

  /** `symptom_names.first()`. */
  function DefaultSelection(names: seq<string>): (r: Option<string>)
    ensures r.Some? <==> |names| > 0
    ensures r.Some? ==> r.value == names[0]
  {
    if |names| == 0 then None else Some(names[0])
  }

  /** Charting with the default selection is charting with no selection at
      all: both fall back to the first name. */
  lemma DefaultSelectionMatchesFallback<P>(dm: Store, startDate: Option<Date>, endDate: Option<Date>,
                                           symptomNames: Store -> seq<string>,
                                           scatter: (Store, string, QueryRange) -> Option<P>)
    requires |symptomNames(dm)| > 0
    ensures FetchChart(Some(dm), DefaultSelection(symptomNames(dm)), startDate, endDate, symptomNames, scatter)
         == FetchChart(Some(dm), None, startDate, endDate, symptomNames, scatter)
  {
  }
}
