/** `Provider::fetch_chart`: picks the symptom to chart and turns the chosen
    start and end dates into the half-open range of date-map keys to plot. */
module Provider {
  import opened Wrappers
  import opened Calendar
  import opened DateMap
  import opened DataManager

  /** The clock times the anchors and the defaults use, in seconds after
      midnight: 00:00:00, 11:59:59, 11:30:00 and 11:31:00. */
  const Midnight: SecondOfDay := 0
  const EndAnchorTime: SecondOfDay := 11 * 3600 + 59 * 60 + 59
  const DefaultFrom: SecondOfDay := 11 * 3600 + 30 * 60
  const DefaultTo: SecondOfDay := 11 * 3600 + 31 * 60

  /** `start_span..end_span`, a `std::ops::Range` of date-map keys. */
  datatype QueryRange = QueryRange(start: Span, end: Span)

  /** `Range::contains` under the overlap ordering: `start <= k && k < end`. */
  predicate InRange(k: Span, range: QueryRange) {
    Cmp(range.start, k) != Greater && Cmp(k, range.end) == Less
  }

  /** The anchor for a chosen start date: its first second, midnight to
      00:00:01.  Neither `unwrap` can fail. */
  function StartAnchor(d: Date): (r: Span)
    ensures WellFormed(r)
    ensures r.start == DateTime(d, 0) && r.end == DateTime(d, 1)
  {
    var t := AndTime(d, Midnight);
    var next := AddOneSecond(t);
    assert next == Some(DateTime(d, 1));
    NewSpan(t, next.value).value
  }

  /** The anchor for a chosen end date: the second before 11:59:59, on that
      date.  Neither `unwrap` can fail. */
  function EndAnchor(d: Date): (r: Span)
    ensures WellFormed(r)
    ensures r.start == DateTime(d, EndAnchorTime - 1) && r.end == DateTime(d, EndAnchorTime)
  {
    var t := AndTime(d, EndAnchorTime);
    var prev := SubOneSecond(t);
    assert prev == Some(DateTime(d, EndAnchorTime - 1));
    NewSpan(prev.value, t).value
  }

  /** The spans the source parses from "2021-11-19T11:30:00 - 2021-11-19T11:31:00"
      and "2021-11-25T11:30:00 - 2021-11-25T11:31:00". */
  const DefaultStart: Span := Span(DateTime(Ymd(2021, 11, 19), DefaultFrom), DateTime(Ymd(2021, 11, 19), DefaultTo))
  const DefaultEnd: Span := Span(DateTime(Ymd(2021, 11, 25), DefaultFrom), DateTime(Ymd(2021, 11, 25), DefaultTo))

  /** The lower bound of the range: the start date's first second, or the
      fixed default on 2021-11-19. */
  function StartSpan(startDate: Option<Date>): (r: Span)
    ensures WellFormed(r)
    ensures startDate.Some? ==> r.start == DateTime(startDate.value, 0) && r.end == DateTime(startDate.value, 1)
    ensures startDate.None? ==> r.start.date == Ymd(2021, 11, 19) && r.start.second == DefaultFrom
                                && r.end.date == Ymd(2021, 11, 19) && r.end.second == DefaultTo
  {
    match startDate
    case Some(d) => StartAnchor(d)
    case None => DefaultStart
  }

  /** The upper bound of the range: the second before 11:59:59 on the end
      date, or the fixed default on 2021-11-25. */
  function EndSpan(endDate: Option<Date>): (r: Span)
    ensures WellFormed(r)
    ensures endDate.Some? ==> r.start == DateTime(endDate.value, EndAnchorTime - 1) && r.end == DateTime(endDate.value, EndAnchorTime)
    ensures endDate.None? ==> r.start.date == Ymd(2021, 11, 25) && r.start.second == DefaultFrom
                              && r.end.date == Ymd(2021, 11, 25) && r.end.second == DefaultTo
  {
    match endDate
    case Some(d) => EndAnchor(d)
    case None => DefaultEnd
  }

  /** Indexing an empty name list panics. */
  datatype FetchError = NoSymptomNames

  /** `Provider::fetch_chart`.  `symptomNames` and `scatter` stand for
      `DataManager::get_symptom_names` and
      `DataManager::get_basic_symptoms_scatterplot`, whose bodies are not
      part of this model; `P` is the plot they build. */
  function FetchChart<P>(dm: Option<Store>, symptom: Option<string>, startDate: Option<Date>, endDate: Option<Date>,
                         symptomNames: Store -> seq<string>,
                         scatter: (Store, string, QueryRange) -> Option<P>): (r: Result<Option<P>, FetchError>)
    ensures dm.None? ==> r == Ok(None)
    ensures r.Err? <==> dm.Some? && symptom.None? && |symptomNames(dm.value)| == 0
    ensures r.Ok? && dm.Some? ==>
      var name := if symptom.Some? then symptom.value else symptomNames(dm.value)[0];
      r.value == scatter(dm.value, name, QueryRange(StartSpan(startDate), EndSpan(endDate)))
  {
    if symptom.None? && dm.None? then Ok(None)
    else if symptom.None? && |symptomNames(dm.value)| == 0 then Err(NoSymptomNames)
    else
      var name := if symptom.Some? then symptom.value else symptomNames(dm.value)[0];
      var range := QueryRange(StartSpan(startDate), EndSpan(endDate));
      if dm.None? then Ok(None) else Ok(scatter(dm.value, name, range))
  }

  // ---------------------------------------------------------------------------
  // What the range selects.

  /** A well-formed key lies in `s..e` exactly when it ends no earlier than
      `s` starts and strictly before `e` starts. */
  lemma {:induction false} RangeContains(k: Span, s: Span, e: Span)
    requires WellFormed(k) && WellFormed(s)
    ensures InRange(k, QueryRange(s, e)) <==> !Before(k.end, s.start) && Before(k.end, e.start)
  {
    if Before(k.end, s.start) && Before(s.end, k.start) {
      BeforeTransitive(k.end, s.start, s.end);
      BeforeTransitive(k.end, s.end, k.start);
    }
  }

  /** The start anchor of `a` is `Less` than the end anchor of `b` exactly when
      `a` is not after `b`, and `Greater` otherwise, so the range never starts
      on an `Equal` pair. */
  lemma AnchorOrder(a: Date, b: Date)
    ensures Cmp(StartAnchor(a), EndAnchor(b)) == Less <==> !DateBefore(b, a)
    ensures Cmp(StartAnchor(a), EndAnchor(b)) != Equal
  {
  }

  lemma DefaultsOrdered()
    ensures WellFormed(DefaultStart) && WellFormed(DefaultEnd)
    ensures Cmp(DefaultStart, DefaultEnd) == Less
  {
  }

  /** With both dates chosen, a well-formed key is plotted exactly when it ends
      at or after midnight of the start date and before 11:59:58 on the end
      date. */
  lemma ChosenDatesSelect(k: Span, a: Date, b: Date)
    requires WellFormed(k)
    ensures InRange(k, QueryRange(StartAnchor(a), EndAnchor(b)))
        <==> !Before(k.end, DateTime(a, 0)) && Before(k.end, DateTime(b, EndAnchorTime - 1))
  {
    RangeContains(k, StartAnchor(a), EndAnchor(b));
  }

  /** A key that lies on a date strictly between (or on) the start date and
      before the end date is plotted. */
  lemma DaysBeforeEndAreSelected(k: Span, a: Date, b: Date)
    requires WellFormed(k) && k.end.date == k.start.date
    requires !DateBefore(k.start.date, a) && DateBefore(k.start.date, b)
    ensures InRange(k, QueryRange(StartAnchor(a), EndAnchor(b)))
  {
    ChosenDatesSelect(k, a, b);
  }

  /** A key that lies on the end date and ends at or after 11:59:58 is not
      plotted: the afternoon of the end date is outside the range. */
  lemma EndDateAfternoonIsExcluded(k: Span, a: Date, b: Date)
    requires WellFormed(k) && k.end.date == b && k.end.second >= EndAnchorTime - 1
    ensures !InRange(k, QueryRange(StartAnchor(a), EndAnchor(b)))
  {
    ChosenDatesSelect(k, a, b);
  }

  /** Without a data manager there is nothing to plot, whatever else is chosen. */
  lemma NoDataNoChart<P>(symptom: Option<string>, startDate: Option<Date>, endDate: Option<Date>,
                         symptomNames: Store -> seq<string>, scatter: (Store, string, QueryRange) -> Option<P>)
    ensures FetchChart(None, symptom, startDate, endDate, symptomNames, scatter) == Ok(None)
  {
  }
}
