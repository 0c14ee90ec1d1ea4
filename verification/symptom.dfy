/** `Symptom`: one symptom record taken from a CSV row, its name with the
    severity suffix removed, its severity as a `u8`, and the span of time its
    day part covers on its date. */
module Symptoms {
  import opened Wrappers
  import opened Calendar
  import opened Digits
  import opened DateMap
  import opened TimeOfDay
  import opened Parser

  // ---------------------------------------------------------------------------
  // The name regex `(.*) (\(Mild\)|\(Moderate\)|\(Severe\)|\(Unbearable\))`.

  /** The severity words of the regex's alternation, in its order. */
  const Severities: seq<string> := ["Mild", "Moderate", "Severe", "Unbearable"]

  predicate HasAt(s: string, k: int, m: string) {
    0 <= k && k + |m| <= |s| && s[k..k + |m|] == m
  }

  /** The part of the regex after `(.*)` matches at index `k`: a space and
      a parenthesised severity. */
  predicate MarkerAt(s: string, k: int) {
    || HasAt(s, k, " (Mild)")
    || HasAt(s, k, " (Moderate)")
    || HasAt(s, k, " (Severe)")
    || HasAt(s, k, " (Unbearable)")
  }

  /** The shortest marker, " (Mild)", has seven characters. */
  lemma MarkerShape(s: string, k: int)
    requires MarkerAt(s, k)
    ensures 0 <= k && k + 7 <= |s| && s[k] == ' '
  {
    var m := if HasAt(s, k, " (Mild)") then " (Mild)"
      else if HasAt(s, k, " (Moderate)") then " (Moderate)"
      else if HasAt(s, k, " (Severe)") then " (Severe)"
      else " (Unbearable)";
    assert HasAt(s, k, m);
    assert s[k] == s[k..k + |m|][0] == m[0];
  }

  /** `.` does not match a line feed. */
  predicate NoNewline(s: string, i: int, j: int) {
    forall x :: i <= x < j && 0 <= x < |s| ==> s[x] != '\n'
  }

  /** The regex matches `s` with `(.*)` capturing `s[p..k]`. */
  predicate NameMatch(s: string, p: int, k: int) {
    0 <= p <= k && MarkerAt(s, k) && NoNewline(s, p, k)
  }

  function FirstMarker(s: string, i: nat): (r: Option<nat>)
    requires i <= |s|
    ensures r.Some? ==> i <= r.value && MarkerAt(s, r.value)
    ensures r.Some? ==> forall j :: i <= j < r.value ==> !MarkerAt(s, j)
    ensures r.None? ==> forall j :: i <= j ==> !MarkerAt(s, j)
    decreases |s| - i
  {
    if i == |s| then None
    else if MarkerAt(s, i) then Some(i)
    else FirstMarker(s, i + 1)
  }

  /** The start of the line holding index `k`. */
  function LineStart(s: string, k: nat): (r: nat)
    requires k <= |s|
    ensures r <= k && NoNewline(s, r, k) && (r == 0 || s[r - 1] == '\n')
  {
    if k == 0 || s[k - 1] == '\n' then k else LineStart(s, k - 1)
  }

  /** The end of the line starting at `p`: its line feed, or the end of `s`. */
  function LineEnd(s: string, p: nat): (r: nat)
    requires p <= |s|
    ensures p <= r <= |s| && NoNewline(s, p, r) && (r == |s| || s[r] == '\n')
    decreases |s| - p
  {
    if p == |s| || s[p] == '\n' then p else LineEnd(s, p + 1)
  }

  function LastMarkerIn(s: string, p: nat, e: nat): (r: Option<nat>)
    requires p <= e <= |s|
    ensures r.Some? ==> p <= r.value < e && MarkerAt(s, r.value)
    ensures forall j :: p <= j < e && (r.None? || r.value < j) ==> !MarkerAt(s, j)
    decreases e - p
  {
    if e == p then None
    else if MarkerAt(s, e - 1) then Some(e - 1)
    else LastMarkerIn(s, p, e - 1)
  }

  /** Where the capture group starts and ends. */
  datatype Capture = Capture(start: nat, end: nat)

  /** `Regex::captures`: the leftmost match, and within it the longest `(.*)`
      (the star is greedy; the alternatives cannot match at the same index). */
  function MatchName(s: string): (r: Option<Capture>)
    ensures r.Some? <==> exists k :: MarkerAt(s, k)
    ensures r.Some? ==> NameMatch(s, r.value.start, r.value.end)
    ensures r.Some? ==> forall p, k :: NameMatch(s, p, k) ==>
      r.value.start <= p && (p == r.value.start ==> k <= r.value.end)
  {
    match FirstMarker(s, 0)
    case None => None
    case Some(k0) =>
      var p := LineStart(s, k0);
      var e := LineEnd(s, p);
      MarkerShape(s, k0);
      assert k0 < e;
      var k := LastMarkerIn(s, p, e).value;
      LongestFromLineStart(s, k0, p, e, k);
      Some(Capture(p, k))
  }

  lemma LongestFromLineStart(s: string, k0: nat, p: nat, e: nat, k: nat)
    requires MarkerAt(s, k0) && forall j :: 0 <= j < k0 ==> !MarkerAt(s, j)
    requires p <= k0 && NoNewline(s, p, k0) && (p == 0 || s[p - 1] == '\n')
    requires p <= e <= |s| && NoNewline(s, p, e) && (e == |s| || s[e] == '\n')
    requires p <= k < e && MarkerAt(s, k) && forall j :: k < j < e ==> !MarkerAt(s, j)
    ensures NameMatch(s, p, k)
    ensures forall p', k' :: NameMatch(s, p', k') ==> p <= p' && (p' == p ==> k' <= k)
  {
    forall p', k' | NameMatch(s, p', k')
      ensures p <= p' && (p' == p ==> k' <= k)
    {
      MarkerShape(s, k');
    }
  }

  /** `Symptom::parse_name`: the `(.*)` capture, or `None` where the source's
      `expect` panics. */
  function ParseName(s: string): (r: Option<string>)
    ensures r.Some? <==> exists k :: MarkerAt(s, k)
    ensures r.Some? ==> |r.value| + 7 <= |s|
  {
    match MatchName(s)
    case None => None
    case Some(c) =>
      MarkerShape(s, c.end);
      Some(s[c.start..c.end])
  }

  predicate SingleLine(s: string) {
    forall i :: 0 <= i < |s| ==> s[i] != '\n'
  }

  /** On a single line the name is everything before the LAST marker. */
  lemma ParseNameSingleLine(s: string)
    requires SingleLine(s)
    ensures ParseName(s).Some? ==>
      var k := |ParseName(s).value|;
      && ParseName(s).value == s[..k]
      && MarkerAt(s, k)
      && forall j :: k < j ==> !MarkerAt(s, j)
  {
    if ParseName(s).Some? {
      var c := MatchName(s).value;
      var k0 :| MarkerAt(s, k0);
      MarkerShape(s, k0);
      assert NameMatch(s, 0, k0);
      assert c.start == 0;
      forall j | c.end < j
        ensures !MarkerAt(s, j)
      {
        if MarkerAt(s, j) {
          MarkerShape(s, j);
          assert NameMatch(s, 0, j);
        }
      }
    }
  }

  function Suffix(w: string): string {
    " (" + w + ")"
  }

  lemma SeverityMarker(w: string, t: string)
    requires w in Severities
    requires t == Suffix(w)
    ensures forall i :: 0 < i < |t| ==> t[i] != ' '
    ensures MarkerAt(t, 0)
  {
  }

  /** A single-line name followed by a severity suffix parses back to the name. */
  lemma ParseNameSuffix(name: string, w: string)
    requires SingleLine(name) && w in Severities
    ensures ParseName(name + Suffix(w)) == Some(name)
  {
    var t := Suffix(w);
    var s := name + t;
    SeverityMarker(w, t);
    assert SingleLine(s) by {
      forall i | 0 <= i < |s|
        ensures s[i] != '\n'
      {
        if i >= |name| {
          assert s[i] == t[i - |name|];
          assert t[0] == ' ';
        }
      }
    }
    assert s[|name|..|name| + |t|] == t;
    assert MarkerAt(s, |name|);
    ParseNameSingleLine(s);
    var k := |ParseName(s).value|;
    if k > |name| {
      MarkerShape(s, k);
    }
    assert ParseName(s).value == s[..|name|];
  }

  /** The name of the repository's sample row. */
  lemma ParseExampleName()
    ensures ParseName("Neck pain (Moderate)") == Some("Neck pain")
  {
    assert "Neck pain (Moderate)" == "Neck pain" + Suffix("Moderate");
    ParseNameSuffix("Neck pain", "Moderate");
  }

  // ---------------------------------------------------------------------------
  // `str::parse::<u8>`.

  type U8 = n: int | 0 <= n < 256

  /** `core::num::IntErrorKind`, restricted to what an unsigned parse yields. */
  datatype IntErrorKind = Empty | InvalidDigit | PosOverflow

  /** The digits after an optional leading '+'. */
  function Unsigned(s: string): string {
    if |s| > 0 && s[0] == '+' then s[1..] else s
  }

  /** Some prefix of `d` consisting of digits already exceeds 255. */
  ghost predicate OverflowsBefore(d: string, n: int) {
    exists j :: 0 < j <= n && j <= |d| && AllDigits(d[..j]) && DecimalValue(d[..j]) > 255
  }

  /** Rust's `u8::from_str`: an empty string is `Empty`; a lone sign is
      `InvalidDigit`; one leading '+' is skipped; then the digits are taken
      left to right, a non-digit giving `InvalidDigit` and a value above 255
      `PosOverflow`, whichever comes first. */
  function ParseU8(s: string): (r: Result<U8, IntErrorKind>)
    ensures r == Err(Empty) <==> |s| == 0
    ensures r.Ok? <==> |Unsigned(s)| > 0 && AllDigits(Unsigned(s)) && DecimalValue(Unsigned(s)) <= 255
    ensures r.Ok? ==> r.value == DecimalValue(Unsigned(s))
    ensures r == Err(PosOverflow) <==> |s| > 1 && OverflowsBefore(Unsigned(s), |Unsigned(s)|)
  {
    if |s| == 0 then Err(Empty)
    else if (s[0] == '+' || s[0] == '-') && |s| == 1 then Err(InvalidDigit)
    else Accumulate(Unsigned(s), 0, 0)
  }

  function Accumulate(d: string, i: nat, acc: U8): (r: Result<U8, IntErrorKind>)
    requires i <= |d| && AllDigits(d[..i]) && acc == DecimalValue(d[..i])
    ensures r != Err(Empty)
    ensures r.Ok? <==> AllDigits(d) && DecimalValue(d) <= 255
    ensures r.Ok? ==> r.value == DecimalValue(d)
    ensures r == Err(PosOverflow) <==> OverflowsBefore(d, |d|)
    decreases |d| - i
  {
    if i == |d| then
      assert d[..i] == d;
      NoOverflowBelow(d, i);
      Ok(acc)
    else
      assert d[..i + 1][..i] == d[..i];
      if !IsDigit(d[i]) then
        NotAllDigits(d, i);
        NoOverflowBelow(d, i);
        assert !OverflowsBefore(d, |d|);
        Err(InvalidDigit)
      else if acc * 10 + DigitValue(d[i]) > 255 then
        assert AllDigits(d[..i + 1]);
        assert OverflowsBefore(d, |d|);
        OverflowStaysAbove(d, i);
        Err(PosOverflow)
      else
        assert AllDigits(d[..i + 1]);
        OverflowShift(d, i);
        Accumulate(d, i + 1, acc * 10 + DigitValue(d[i]))
  }

  lemma NotAllDigits(d: string, i: nat)
    requires i < |d| && !IsDigit(d[i])
    ensures !AllDigits(d)
  {
  }

  /** Prefixes of a prefix worth at most 255 are worth at most 255. */
  lemma NoOverflowBelow(d: string, i: nat)
    requires i <= |d| && AllDigits(d[..i]) && DecimalValue(d[..i]) <= 255
    ensures !OverflowsBefore(d, i)
  {
    forall j | 0 < j <= i
      ensures DecimalValue(d[..j]) <= 255
    {
      assert d[..i][..j] == d[..j];
      DecimalValuePrefix(d[..i], j);
    }
  }

  /** An overflowing prefix makes every longer digit string overflow. */
  lemma OverflowStaysAbove(d: string, i: nat)
    requires i < |d| && AllDigits(d[..i + 1]) && DecimalValue(d[..i + 1]) > 255
    ensures AllDigits(d) ==> DecimalValue(d) > 255
  {
    if AllDigits(d) {
      DecimalValuePrefix(d, i + 1);
    }
  }

  lemma OverflowShift(d: string, i: nat)
    requires i < |d| && AllDigits(d[..i + 1]) && DecimalValue(d[..i + 1]) <= 255
    ensures OverflowsBefore(d, |d|) <==> exists j :: i + 1 < j <= |d| && AllDigits(d[..j]) && DecimalValue(d[..j]) > 255
  {
    NoOverflowBelow(d, i + 1);
  }

  lemma ParseU8Examples()
    ensures ParseU8("2") == Ok(2) && ParseU8("+7") == Ok(7) && ParseU8("255") == Ok(255)
    ensures ParseU8("") == Err(Empty) && ParseU8("+") == Err(InvalidDigit) && ParseU8("-1") == Err(InvalidDigit)
    ensures ParseU8("256") == Err(PosOverflow) && ParseU8("1000a") == Err(PosOverflow)
    ensures ParseU8("2a") == Err(InvalidDigit)
  {
    assert "255"[..2] == "25" && "255"[..1] == "2";
    assert "256"[..2] == "25" && "256"[..1] == "2";
    assert "1000a"[..1] == "1" && "1000a"[..2] == "10" && "1000a"[..3] == "100" && "1000a"[..4] == "1000";
  }

  // ---------------------------------------------------------------------------
  // The record.

  datatype Symptom = Symptom(name: string, date: Date, timeOfDay: TimeOfDay, severity: U8)

  /** Where `Symptom::from` panics. */
  datatype SymptomError = NoSeverityInName | BadSeverity(kind: IntErrorKind)

  /** `Symptom::from`: the fields are evaluated in the order they are written,
      so a name without a severity is reported before a bad amount. */
  function FromRow(row: CsvRow): (r: Result<Symptom, SymptomError>)
    ensures r == Err(NoSeverityInName) <==> forall k :: !MarkerAt(row.detail, k)
    ensures r.Ok? <==> ParseName(row.detail).Some? && ParseU8(row.amount).Ok?
    ensures r.Ok? ==> r.value.date == row.date && r.value.timeOfDay == row.timeOfDay
    ensures r.Ok? ==> Some(r.value.name) == ParseName(row.detail)
    ensures r.Ok? ==> Unsigned(row.amount) != "" && AllDigits(Unsigned(row.amount))
                      && r.value.severity == DecimalValue(Unsigned(row.amount))
  {
    match ParseName(row.detail)
    case None => Err(NoSeverityInName)
    case Some(name) =>
      match ParseU8(row.amount)
      case Err(kind) => Err(BadSeverity(kind))
      case Ok(severity) => Ok(Symptom(name, row.date, row.timeOfDay, severity))
  }

  /** The repository's sample row becomes a moderate neck pain of severity 2. */
  lemma FromExampleRow()
    ensures FromRow(CsvRow(Ymd(2021, 12, 8), "Wednesday", MID, "Symptom", "2", "Neck pain (Moderate)", ""))
         == Ok(Symptom("Neck pain", Ymd(2021, 12, 8), MID, 2))
  {
    ParseExampleName();
  }

  /** `Symptom::date_time_span`: the day part's clock span placed on the
      symptom's date.  `TimeOfDay::span` is the parameter `dayPart`. */
  function DateTimeSpan(sym: Symptom, dayPart: DayPartSpans): (r: Result<Span, SpanError>)
    ensures dayPart(sym.timeOfDay).Err? ==> r == Err(dayPart(sym.timeOfDay).error)
    ensures dayPart(sym.timeOfDay).Ok? ==>
      var c := dayPart(sym.timeOfDay).value;
      (r.Ok? <==> c.start <= c.end) && (r.Err? ==> r.error == OutOfOrder)
    ensures r.Ok? ==>
      var c := dayPart(sym.timeOfDay).value;
      && WellFormed(r.value)
      && r.value.start == DateTime(sym.date, c.start)
      && r.value.end == DateTime(sym.date, c.end)
  {
    var c :- dayPart(sym.timeOfDay);
    NewSpan(AndTime(sym.date, c.start), AndTime(sym.date, c.end))
  }

  /** Records of different dates never collide in a date map, whatever their
      day parts. */
  lemma EarlierDateIsLess(a: Symptom, b: Symptom, dayPart: DayPartSpans)
    requires DateBefore(a.date, b.date)
    requires DateTimeSpan(a, dayPart).Ok? && DateTimeSpan(b, dayPart).Ok?
    ensures Cmp(DateTimeSpan(a, dayPart).value, DateTimeSpan(b, dayPart).value) == Less
  {
  }

  /** Records of the same date and day part always collide. */
  lemma SameDayPartIsEqual(a: Symptom, b: Symptom, dayPart: DayPartSpans)
    requires a.date == b.date && a.timeOfDay == b.timeOfDay
    requires DateTimeSpan(a, dayPart).Ok?
    ensures DateTimeSpan(b, dayPart).Ok?
    ensures Cmp(DateTimeSpan(a, dayPart).value, DateTimeSpan(b, dayPart).value) == Equal
  {
  }
}
