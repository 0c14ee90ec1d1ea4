/** Decoding of one row of a Bearable CSV export: the date field
    ("8th Dec 2021") and the typed fields of `CsvRow`.

    The date decoder searches the text for the pattern
    `(\d*)(\w*) (\w\w\w) (\d\d\d\d)`, joins groups 1, 3 and 4 (dropping the
    ordinal suffix of group 2), and parses the result with chrono's
    `%d%b%Y`.  Both the regex search and chrono's scanner are written out
    here as string functions. */
module Parser {
  import opened Wrappers
  import opened Calendar
  import opened Digits
  import opened TimeOfDay

  // ---------------------------------------------------------------------------
  // The date pattern, searched leftmost-first.

  datatype DateCaptures = DateCaptures(day: string, suffix: string, month: string, year: string)

  /** End of the run of digits starting at `p`. */
  function DigitRunEnd(s: string, p: nat): (e: nat)
    requires p <= |s|
    ensures p <= e <= |s|
    ensures forall i :: p <= i < e ==> IsDigit(s[i])
    ensures e < |s| ==> !IsDigit(s[e])
    decreases |s| - p
  {
    if p < |s| && IsDigit(s[p]) then DigitRunEnd(s, p + 1) else p
  }

  /** End of the run of word characters starting at `p`. */
  function WordRunEnd(s: string, p: nat): (e: nat)
    requires p <= |s|
    ensures p <= e <= |s|
    ensures forall i :: p <= i < e ==> IsWordChar(s[i])
    ensures e < |s| ==> !IsWordChar(s[e])
    decreases |s| - p
  {
    if p < |s| && IsWordChar(s[p]) then WordRunEnd(s, p + 1) else p
  }

  /** The text at `p` is an instance of the pattern with these groups. */
  predicate IsDateMatch(s: string, p: nat, c: DateCaptures) {
    var b := p + |c.day| + |c.suffix|;
    && AllDigits(c.day) && AllWordChars(c.suffix)
    && |c.month| == 3 && AllWordChars(c.month)
    && |c.year| == 4 && AllDigits(c.year)
    && b + 9 <= |s|
    && s[p..b + 9] == c.day + c.suffix + " " + c.month + " " + c.year
  }

  /** The priority of the greedy `\d*`: group 1 takes every leading digit. */
  predicate DayIsGreedy(c: DateCaptures) {
    |c.suffix| == 0 || !IsDigit(c.suffix[0])
  }

  /** What must follow groups 1 and 2, which end at `w`. */
  predicate TailMatches(s: string, w: nat) {
    && w + 9 <= |s|
    && s[w] == ' ' && AllWordChars(s[w + 1..w + 4])
    && s[w + 4] == ' ' && AllDigits(s[w + 5..w + 9])
  }

  lemma RunsNest(s: string, p: nat)
    requires p <= |s|
    ensures DigitRunEnd(s, p) <= WordRunEnd(s, p)
  {
  }

  /** The match attempt at `p`: groups 1 and 2 are the digit run and the word
      run from `p`; the rest of the pattern must follow the word run. */
  function MatchAt(s: string, p: nat): (r: Option<DateCaptures>)
    requires p <= |s|
    ensures r.Some? ==> IsDateMatch(s, p, r.value) && DayIsGreedy(r.value)
  {
    var d := DigitRunEnd(s, p);
    var w := WordRunEnd(s, p);
    RunsNest(s, p);
    if TailMatches(s, w) then
      var c := DateCaptures(s[p..d], s[d..w], s[w + 1..w + 4], s[w + 5..w + 9]);
      SplitAtRuns(s, p, d, w);
      Some(c)
    else
      None
  }

  lemma SplitAtRuns(s: string, p: nat, d: nat, w: nat)
    requires p <= d <= w && TailMatches(s, w)
    ensures s[p..w + 9] == s[p..d] + s[d..w] + " " + s[w + 1..w + 4] + " " + s[w + 5..w + 9]
  {
    var tail := s[w..w + 9];
    assert tail == [s[w]] + s[w + 1..w + 4] + [s[w + 4]] + s[w + 5..w + 9];
    assert s[d..w + 9] == s[d..w] + tail;
    assert s[p..w + 9] == s[p..d] + s[d..w + 9];
  }

  function MatchText(c: DateCaptures): string {
    c.day + c.suffix + " " + c.month + " " + c.year
  }

  /** Where each group sits inside the matched text. */
  lemma MatchTextFields(c: DateCaptures)
    requires |c.month| == 3 && |c.year| == 4
    ensures var t, b := MatchText(c), |c.day| + |c.suffix|;
      && |t| == b + 9
      && t[..|c.day|] == c.day && t[|c.day|..b] == c.suffix
      && t[b] == ' ' && t[b + 1..b + 4] == c.month
      && t[b + 4] == ' ' && t[b + 5..b + 9] == c.year
  {
  }

  lemma SliceOfSlice(s: string, lo: nat, hi: nat, t: string, a: nat, b: nat)
    requires lo <= a <= b <= hi <= |s| && s[lo..hi] == t
    ensures s[a..b] == t[a - lo..b - lo]
  {
    assert forall i :: a <= i < b ==> s[i] == s[lo..hi][i - lo];
  }

  /** Where the groups of a match at `p` sit in `s`. */
  lemma MatchFacts(s: string, p: nat, c: DateCaptures)
    requires p <= |s| && IsDateMatch(s, p, c)
    ensures var e := p + |c.day|;
      var b := e + |c.suffix|;
      && s[p..e] == c.day && s[e..b] == c.suffix
      && s[b] == ' ' && s[b + 1..b + 4] == c.month
      && s[b + 4] == ' ' && s[b + 5..b + 9] == c.year
  {
    var b := p + |c.day| + |c.suffix|;
    var e := p + |c.day|;
    var text := MatchText(c);
    MatchTextFields(c);
    SliceOfSlice(s, p, b + 9, text, p, e);
    SliceOfSlice(s, p, b + 9, text, e, b);
    SliceOfSlice(s, p, b + 9, text, b + 1, b + 4);
    SliceOfSlice(s, p, b + 9, text, b + 5, b + 9);
    assert s[b] == text[b - p];
    assert s[b + 4] == text[b + 4 - p];
  }

  /** A run end is pinned down by its content and the character after it. */
  lemma WordRunEndAt(s: string, p: nat, b: nat)
    requires p <= b < |s| && !IsWordChar(s[b])
    requires forall i :: p <= i < b ==> IsWordChar(s[i])
    ensures WordRunEnd(s, p) == b
  {
  }

  lemma DigitRunEndAt(s: string, p: nat, e: nat)
    requires p <= e < |s| && !IsDigit(s[e])
    requires forall i :: p <= i < e ==> IsDigit(s[i])
    ensures DigitRunEnd(s, p) == e
  {
  }

  /** Every instance of the pattern at `p` is found by the attempt at `p`, and
      it is the one found when its first group is greedy. */
  lemma MatchAtComplete(s: string, p: nat, c: DateCaptures)
    requires p <= |s| && IsDateMatch(s, p, c)
    ensures MatchAt(s, p).Some?
    ensures DayIsGreedy(c) ==> MatchAt(s, p) == Some(c)
  {
    var e := p + |c.day|;
    var b := e + |c.suffix|;
    MatchFacts(s, p, c);
    forall i | p <= i < b
      ensures IsWordChar(s[i])
    {
      if i < e {
        assert s[i] == s[p..e][i - p];
      } else {
        assert s[i] == s[e..b][i - e];
      }
    }
    WordRunEndAt(s, p, b);
    assert TailMatches(s, b);
    if DayIsGreedy(c) {
      forall i | p <= i < e
        ensures IsDigit(s[i])
      {
        assert s[i] == s[p..e][i - p];
      }
      if e < b {
        assert s[e] == s[e..b][0];
      }
      DigitRunEndAt(s, p, e);
    }
  }

  datatype Found = Found(pos: nat, caps: DateCaptures)

  /** `Regex::captures`: the first position at or after `p` where the pattern
      matches. */
  function Search(s: string, p: nat): (r: Option<Found>)
    requires p <= |s|
    ensures r.Some? ==> p <= r.value.pos <= |s| && MatchAt(s, r.value.pos) == Some(r.value.caps)
    ensures r.Some? ==> forall q :: p <= q < r.value.pos ==> MatchAt(s, q).None?
    ensures r.None? ==> forall q :: p <= q <= |s| ==> MatchAt(s, q).None?
    decreases |s| - p
  {
    match MatchAt(s, p)
    case Some(c) => Some(Found(p, c))
    case None => if p == |s| then None else Search(s, p + 1)
  }

  /** The search finds a match exactly when the text contains an instance of
      the pattern; what it finds is the leftmost instance, with greedy groups. */
  lemma SearchIsLeftmostFirst(s: string)
    ensures Search(s, 0).Some? <==> exists q: nat, c :: IsDateMatch(s, q, c)
    ensures Search(s, 0).Some? ==>
      var f := Search(s, 0).value;
      && IsDateMatch(s, f.pos, f.caps) && DayIsGreedy(f.caps)
      && forall q: nat, c :: q < f.pos ==> !IsDateMatch(s, q, c)
  {
    var r := Search(s, 0);
    if r.Some? {
      forall q: nat, c | q < r.value.pos
        ensures !IsDateMatch(s, q, c)
      {
        if IsDateMatch(s, q, c) {
          MatchAtComplete(s, q, c);
        }
      }
    } else {
      forall q: nat, c
        ensures !IsDateMatch(s, q, c)
      {
        if IsDateMatch(s, q, c) {
          MatchAtComplete(s, q, c);
        }
      }
    }
  }

  // ---------------------------------------------------------------------------
  // chrono's parser for the format `%d%b%Y`.

  /** Unicode `White_Space`, which chrono trims before every numeric field. */
  predicate IsWhitespace(c: char) {
    || c == ' ' || ('\t' <= c <= '\r')
    || c == '\U{85}' || c == '\U{A0}' || c == '\U{1680}'
    || ('\U{2000}' <= c <= '\U{200A}')
    || c == '\U{2028}' || c == '\U{2029}' || c == '\U{202F}' || c == '\U{205F}' || c == '\U{3000}'
  }

  function TrimStart(s: string): (r: string)
    ensures |r| <= |s| && r == s[|s| - |r|..]
    ensures |r| > 0 ==> !IsWhitespace(r[0])
  {
    if |s| > 0 && IsWhitespace(s[0]) then TrimStart(s[1..]) else s
  }

  /** How many of the first `max` characters are leading digits. */
  function LeadingDigits(s: string, max: nat): (n: nat)
    ensures n <= max && n <= |s|
    ensures forall i :: 0 <= i < n ==> IsDigit(s[i])
    ensures n < max && n < |s| ==> !IsDigit(s[n])
  {
    if max == 0 || |s| == 0 || !IsDigit(s[0]) then 0 else 1 + LeadingDigits(s[1..], max - 1)
  }

  /** A scanned field and the text after it. */
  datatype Scanned = Scanned(value: int, rest: string)

  /** chrono's `scan::number`: at least `min` and at most `max` leading digits. */
  function ScanNumber(s: string, min: nat, max: nat): Option<Scanned> {
    var n := LeadingDigits(s, max);
    if n < min then None else Some(Scanned(DecimalValue(s[..n]), s[n..]))
  }

  const MonthNames: seq<string> :=
    ["jan", "feb", "mar", "apr", "may", "jun", "jul", "aug", "sep", "oct", "nov", "dec"]

  /** chrono lower-cases each byte with `| 32`, which changes exactly the ASCII
      capitals into letters. */
  function AsciiLower(c: char): char {
    if 'A' <= c <= 'Z' then (c as int + 32) as char else c
  }

  function LowerText(s: string): (r: string)
    ensures |r| == |s|
    ensures forall i :: 0 <= i < |s| ==> r[i] == AsciiLower(s[i])
  {
    seq(|s|, i requires 0 <= i < |s| => AsciiLower(s[i]))
  }

  /** The month, 1 to 12, that a three-letter English abbreviation names,
      ignoring ASCII case. */
  function MonthNumber(s: string): (r: Option<int>)
    ensures r.Some? ==> 1 <= r.value <= 12 && |s| == 3 && LowerText(s) == MonthNames[r.value - 1]
    ensures r.None? ==> forall i :: 0 <= i < 12 ==> LowerText(s) != MonthNames[i]
  {
    var l := LowerText(s);
    if l == "jan" then Some(1) else if l == "feb" then Some(2)
    else if l == "mar" then Some(3) else if l == "apr" then Some(4)
    else if l == "may" then Some(5) else if l == "jun" then Some(6)
    else if l == "jul" then Some(7) else if l == "aug" then Some(8)
    else if l == "sep" then Some(9) else if l == "oct" then Some(10)
    else if l == "nov" then Some(11) else if l == "dec" then Some(12)
    else None
  }

  /** chrono's `scan::short_month0`. */
  function ShortMonth(s: string): Option<Scanned> {
    if |s| < 3 then None
    else
      match MonthNumber(s[..3])
      case Some(m) => Some(Scanned(m, s[3..]))
      case None => None
  }

  /** chrono's `%Y`: an explicitly signed number of any length, or up to four
      unsigned digits. */
  function ScanYear(s: string): Option<Scanned> {
    if |s| > 0 && s[0] == '-' then
      match ScanNumber(s[1..], 1, |s| - 1)
      case Some(y) => Some(Scanned(-y.value, y.rest))
      case None => None
    else if |s| > 0 && s[0] == '+' then
      ScanNumber(s[1..], 1, |s| - 1)
    else
      ScanNumber(s, 1, 4)
  }

  /** `NaiveDate::parse_from_str(t, "%d%b%Y")`: day, month, year, nothing
      left over, and a valid date. */
  function ParseDayMonthYear(t: string): Option<Date> {
    match ScanNumber(TrimStart(t), 1, 2)
    case None => None
    case Some(day) =>
      match ShortMonth(day.rest)
      case None => None
      case Some(month) =>
        match ScanYear(TrimStart(month.rest))
        case None => None
        case Some(year) =>
          if |year.rest| > 0 then None else FromYmd(year.value, month.value, day.value)
  }

  // ---------------------------------------------------------------------------
  // The date field decoder.

  /** The string handed to chrono: groups 1, 3 and 4; the ordinal suffix of
      group 2 is dropped. */
  function Reformat(c: DateCaptures): string {
    c.day + c.month + c.year
  }

  /** What the pattern guarantees about groups 1, 3 and 4. */
  predicate CapturesShaped(c: DateCaptures) {
    && AllDigits(c.day)
    && |c.month| == 3 && AllWordChars(c.month)
    && |c.year| == 4 && AllDigits(c.year)
  }

  /** The groups name a calendar date: one or two day digits, a known month
      abbreviation, and a valid day of that month in the four-digit year. */
  predicate NamesDate(c: DateCaptures)
    requires CapturesShaped(c)
  {
    && 1 <= |c.day| <= 2
    && MonthNumber(c.month).Some?
    && IsValidDate(Ymd(DecimalValue(c.year), MonthNumber(c.month).value, DecimalValue(c.day)))
  }

  lemma MonthNamesAreLetters(m: int, j: int)
    requires 0 <= m < 12 && 0 <= j < 3
    ensures 'a' <= MonthNames[m][j] <= 'z'
  {
  }

  /** A three-character text holding a digit names no month. */
  lemma NoMonthWithDigit(s: string, j: nat)
    requires |s| == 3 && j < 3 && IsDigit(s[j])
    ensures MonthNumber(s) == None
  {
    if MonthNumber(s).Some? {
      var m := MonthNumber(s).value;
      assert LowerText(s)[j] == s[j];
      MonthNamesAreLetters(m - 1, j);
    }
  }

  lemma TrimStartNoop(s: string)
    requires |s| > 0 && IsWordChar(s[0])
    ensures TrimStart(s) == s
  {
    assert s[0] as int < 128;
    assert !IsWhitespace(s[0]);
  }

  lemma ReformatFields(c: DateCaptures)
    requires CapturesShaped(c)
    ensures var t, D := Reformat(c), |c.day|;
      && |t| == D + 7
      && (forall i :: 0 <= i < D ==> t[i] == c.day[i])
      && (forall i :: 0 <= i < 3 ==> t[D + i] == c.month[i])
      && (forall i :: 0 <= i < 4 ==> t[D + 3 + i] == c.year[i])
      && IsWordChar(t[0])
      && TrimStart(t) == t
  {
    var t := Reformat(c);
    assert IsWordChar(t[0]);
    TrimStartNoop(t);
  }

  /** The day field scans differently from group 1 (it is empty, too long,
      or runs on into a digit of the month group): a digit then lands among
      the three characters read as the month, and parsing fails. */
  lemma ParseRejectsMisplacedDay(c: DateCaptures)
    requires CapturesShaped(c)
    requires |c.day| == 0 || |c.day| >= 3 || (|c.day| == 1 && IsDigit(c.month[0]))
    ensures ParseDayMonthYear(Reformat(c)) == None
    ensures !NamesDate(c)
  {
    var t := Reformat(c);
    var D := |c.day|;
    ReformatFields(c);
    if D == 1 {
      NoMonthWithDigit(c.month, 0);
    }
    var n := LeadingDigits(t, 2);
    if n > 0 {
      var j := if D >= 3 then 0 else 3 + D - n;
      assert 0 <= j < 3 && IsDigit(t[n + j]);
      MonthFieldHoldsDigit(t, n, j);
    }
  }

  /** When a digit sits among the three characters after the day field, no
      month is read there. */
  lemma MonthFieldHoldsDigit(t: string, n: nat, j: nat)
    requires j < 3 && n + 3 <= |t| && IsDigit(t[n + j])
    ensures ShortMonth(t[n..]) == None
  {
    var rest := t[n..];
    assert rest[..3][j] == t[n + j];
    NoMonthWithDigit(rest[..3], j);
  }

  lemma ScanYearDigits(y: string)
    requires |y| == 4 && AllDigits(y)
    ensures ScanYear(TrimStart(y)) == Some(Scanned(DecimalValue(y), []))
  {
    assert IsDigit(y[0]);
    TrimStartNoop(y);
    assert LeadingDigits(y, 4) == 4;
    assert y[..4] == y;
    assert y[4..] == [];
  }

  lemma ScanDayGroup(c: DateCaptures)
    requires CapturesShaped(c)
    requires 1 <= |c.day| <= 2 && (|c.day| == 2 || !IsDigit(c.month[0]))
    ensures ScanNumber(TrimStart(Reformat(c)), 1, 2) == Some(Scanned(DecimalValue(c.day), c.month + c.year))
  {
    var t := Reformat(c);
    var D := |c.day|;
    ReformatFields(c);
    assert LeadingDigits(t, 2) == D;
    assert t[..D] == c.day;
    assert t[D..] == c.month + c.year;
  }

  lemma ShortMonthGroup(c: DateCaptures)
    requires CapturesShaped(c)
    ensures ShortMonth(c.month + c.year) ==
      match MonthNumber(c.month)
      case Some(m) => Some(Scanned(m, c.year))
      case None => None
  {
    var rest := c.month + c.year;
    assert rest[..3] == c.month;
    assert rest[3..] == c.year;
  }

  /** The three scans of `%d%b%Y` in sequence, with nothing left over. */
  lemma ParseSteps(t: string, day: Scanned, month: Scanned, year: Scanned)
    requires ScanNumber(TrimStart(t), 1, 2) == Some(day)
    requires ShortMonth(day.rest) == Some(month)
    requires ScanYear(TrimStart(month.rest)) == Some(year) && |year.rest| == 0
    ensures ParseDayMonthYear(t) == FromYmd(year.value, month.value, day.value)
  {
  }

  lemma ParseKnownMonth(c: DateCaptures, m: int)
    requires CapturesShaped(c)
    requires 1 <= |c.day| <= 2 && (|c.day| == 2 || !IsDigit(c.month[0]))
    requires MonthNumber(c.month) == Some(m)
    ensures ParseDayMonthYear(Reformat(c)) == FromYmd(DecimalValue(c.year), m, DecimalValue(c.day))
  {
    var day := Scanned(DecimalValue(c.day), c.month + c.year);
    var month := Scanned(m, c.year);
    var year := Scanned(DecimalValue(c.year), []);
    ScanDayGroup(c);
    ShortMonthGroup(c);
    ScanYearDigits(c.year);
    ParseSteps(Reformat(c), day, month, year);
  }

  lemma ParseUnknownMonth(c: DateCaptures)
    requires CapturesShaped(c)
    requires 1 <= |c.day| <= 2 && (|c.day| == 2 || !IsDigit(c.month[0]))
    requires MonthNumber(c.month) == None
    ensures ParseDayMonthYear(Reformat(c)) == None
  {
    ScanDayGroup(c);
    ShortMonthGroup(c);
  }

  /** chrono's `%d%b%Y` accepts the joined groups exactly when they name a
      date, and then yields that date. */
  lemma ParseReformatted(c: DateCaptures)
    requires CapturesShaped(c)
    ensures ParseDayMonthYear(Reformat(c)) ==
      if NamesDate(c) then Some(Ymd(DecimalValue(c.year), MonthNumber(c.month).value, DecimalValue(c.day)))
      else None
  {
    if |c.day| == 0 || |c.day| >= 3 || (|c.day| == 1 && IsDigit(c.month[0])) {
      ParseRejectsMisplacedDay(c);
    } else if MonthNumber(c.month).Some? {
      ParseKnownMonth(c, MonthNumber(c.month).value);
    } else {
      ParseUnknownMonth(c);
    }
  }

  datatype DateError = NoDateInField | NotACalendarDate

  /** `bearable_date_format::deserialize`.  Where the source panics (no match,
      or chrono refusing the joined text) the model returns an error. */
  function DecodeBearableDate(s: string): (r: Result<Date, DateError>)
    ensures r == Err(NoDateInField) <==> Search(s, 0).None?
    ensures Search(s, 0).Some? ==>
      var c := Search(s, 0).value.caps;
      && CapturesShaped(c)
      && (r.Ok? <==> NamesDate(c))
      && (r.Ok? ==> r.value == Ymd(DecimalValue(c.year), MonthNumber(c.month).value, DecimalValue(c.day)))
  {
    match Search(s, 0)
    case None => Err(NoDateInField)
    case Some(f) =>
      ParseReformatted(f.caps);
      match ParseDayMonthYear(Reformat(f.caps))
      case Some(d) => Ok(d)
      case None => Err(NotACalendarDate)
  }

  // ---------------------------------------------------------------------------
  // The export's own rendering of a date, as the decoder's inverse.

  const MonthAbbreviations: seq<string> :=
    ["Jan", "Feb", "Mar", "Apr", "May", "Jun", "Jul", "Aug", "Sep", "Oct", "Nov", "Dec"]

  function OrdinalSuffix(n: int): string {
    if n % 10 == 1 && n != 11 then "st"
    else if n % 10 == 2 && n != 12 then "nd"
    else if n % 10 == 3 && n != 13 then "rd"
    else "th"
  }

  function DayText(n: int): string
    requires 1 <= n <= 31
  {
    if n < 10 then FixedDigits(n, 1) else FixedDigits(n, 2)
  }

  /** The groups of a date as the export writes it. */
  function EncodeCaptures(d: Date): DateCaptures
    requires 0 <= d.year < 10000
  {
    DateCaptures(DayText(d.day), OrdinalSuffix(d.day), MonthAbbreviations[d.month - 1], FixedDigits(d.year, 4))
  }

  /** A date as the export writes it, e.g. "8th Dec 2021". */
  function EncodeBearableDate(d: Date): string
    requires 0 <= d.year < 10000
  {
    MatchText(EncodeCaptures(d))
  }

  lemma MonthAbbreviationNumber(m: int)
    requires 1 <= m <= 12
    ensures MonthNumber(MonthAbbreviations[m - 1]) == Some(m)
  {
    assert LowerText(MonthAbbreviations[m - 1]) == MonthNames[m - 1];
  }

  lemma DayTextValue(n: int)
    requires 1 <= n <= 31
    ensures 1 <= |DayText(n)| <= 2 && AllDigits(DayText(n)) && DecimalValue(DayText(n)) == n
  {
    if n < 10 {
      FixedDigitsValue(n, 1);
    } else {
      FixedDigitsValue(n, 2);
    }
  }

  lemma OrdinalSuffixShape(n: int)
    ensures |OrdinalSuffix(n)| == 2 && AllWordChars(OrdinalSuffix(n)) && !IsDigit(OrdinalSuffix(n)[0])
  {
  }

  lemma MonthAbbreviationShape(m: int)
    requires 1 <= m <= 12
    ensures var a := MonthAbbreviations[m - 1];
      |a| == 3 && AllWordChars(a) && !IsDigit(a[0])
  {
  }

  /** The written groups have the pattern's shape and name the date. */
  lemma EncodeCapturesShape(d: Date)
    requires 0 <= d.year < 10000
    ensures var c := EncodeCaptures(d);
      && CapturesShaped(c) && AllWordChars(c.suffix) && DayIsGreedy(c)
      && |c.day| == |DayText(d.day)| && !IsDigit(c.month[0])
      && DecimalValue(c.day) == d.day && MonthNumber(c.month) == Some(d.month)
      && DecimalValue(c.year) == d.year
  {
    DayTextValue(d.day);
    MonthAbbreviationNumber(d.month);
    MonthAbbreviationShape(d.month);
    OrdinalSuffixShape(d.day);
    FixedDigitsValue(d.year, 4);
  }

  /** Every date with a four-digit year, written as the export writes it,
      decodes back to itself. */
  lemma DecodeEncode(d: Date)
    requires 0 <= d.year < 10000
    ensures DecodeBearableDate(EncodeBearableDate(d)) == Ok(d)
  {
    var c := EncodeCaptures(d);
    var s := EncodeBearableDate(d);
    EncodeCapturesShape(d);
    assert s[0..|s|] == s;
    assert IsDateMatch(s, 0, c);
    MatchAtComplete(s, 0, c);
    assert Search(s, 0) == Some(Found(0, c));
    assert NamesDate(c);
  }

  lemma YearDigitsExample()
    ensures FixedDigits(2021, 4) == "2021"
  {
    assert FixedDigits(2, 1) == "2";
    assert FixedDigits(20, 2) == "20";
    assert FixedDigits(202, 3) == "202";
  }

  lemma EncodeCapturesExample()
    ensures EncodeCaptures(Ymd(2021, 12, 8)) == DateCaptures("8", "th", "Dec", "2021")
  {
    YearDigitsExample();
    assert DayText(8) == "8";
  }

  /** The export writes 2021-12-08 as "8th Dec 2021". */
  lemma EncodeExampleDate()
    ensures EncodeBearableDate(Ymd(2021, 12, 8)) == "8th Dec 2021"
  {
    EncodeCapturesExample();
    assert MatchText(DateCaptures("8", "th", "Dec", "2021")) == "8th Dec 2021";
  }

  /** The date of the repository's parser test. */
  lemma DecodeExampleDate()
    ensures DecodeBearableDate("8th Dec 2021") == Ok(Ymd(2021, 12, 8))
  {
    EncodeExampleDate();
    DecodeEncode(Ymd(2021, 12, 8));
  }

  // ---------------------------------------------------------------------------
  // CSV rows.

  /** The seven text fields of one CSV record, in column order.  Splitting
      and unquoting the CSV text is not part of this model. */
  datatype RawRow = RawRow(date: string, weekday: string, timeOfDay: string, category: string,
                           amount: string, detail: string, notes: string)

  /** `CsvRow`: the date and the day part are decoded; the other fields are
      kept as text. */
  datatype CsvRow = CsvRow(date: Date, weekday: string, timeOfDay: TimeOfDay, category: string,
                           amount: string, detail: string, notes: string)

  datatype RowError = BadDate(dateError: DateError) | BadTimeOfDay(text: string)

  /** serde's decoding of a record into `CsvRow`, field by field in column
      order. */
  function DecodeRow(raw: RawRow): (r: Result<CsvRow, RowError>)
    ensures r.Ok? <==> DecodeBearableDate(raw.date).Ok? && Decode(raw.timeOfDay).Some?
    ensures r.Ok? ==>
      && r.value.date == DecodeBearableDate(raw.date).value
      && Label(r.value.timeOfDay) == raw.timeOfDay
      && r.value.weekday == raw.weekday && r.value.category == raw.category
      && r.value.amount == raw.amount && r.value.detail == raw.detail && r.value.notes == raw.notes
  {
    match DecodeBearableDate(raw.date)
    case Err(e) => Err(BadDate(e))
    case Ok(date) =>
      match Decode(raw.timeOfDay)
      case None => Err(BadTimeOfDay(raw.timeOfDay))
      case Some(t) => Ok(CsvRow(date, raw.weekday, t, raw.category, raw.amount, raw.detail, raw.notes))
  }

  /** The repository's parser test: the one data row of its sample export. */
  lemma DecodeExampleRow()
    ensures DecodeRow(RawRow("8th Dec 2021", "Wednesday", "mid", "Symptom", "2", "Neck pain (Moderate)", ""))
         == Ok(CsvRow(Ymd(2021, 12, 8), "Wednesday", MID, "Symptom", "2", "Neck pain (Moderate)", ""))
  {
    DecodeExampleDate();
  }
}
