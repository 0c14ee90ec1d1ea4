/** The day-part label of a Bearable row, decoded by serde with
    `rename_all = "lowercase"`. */
module TimeOfDay {
  import opened Wrappers
  import opened Calendar
  import opened DateMap

  /** Exactly four day parts; there is no all-day variant. */
  datatype TimeOfDay = PRE | AM | MID | PM

  /** The lower-case name serde uses for each variant. */
  function Label(t: TimeOfDay): string {
    match t
    case PRE => "pre"
    case AM => "am"
    case MID => "mid"
    case PM => "pm"
  }

  /** serde's decoding of a unit variant from its (case-sensitive) name. */
  function Decode(s: string): (r: Option<TimeOfDay>)
    ensures r.Some? ==> Label(r.value) == s
    ensures r.None? ==> forall t :: Label(t) != s
  {
    if s == "pre" then Some(PRE)
    else if s == "am" then Some(AM)
    else if s == "mid" then Some(MID)
    else if s == "pm" then Some(PM)
    else None
  }

  /** Decoding inverts the label, and distinct variants have distinct labels. */
  lemma DecodeLabel(t: TimeOfDay, u: TimeOfDay)
    ensures Decode(Label(t)) == Some(t)
    ensures Label(t) == Label(u) <==> t == u
  {
  }

  /** The four labels are the only accepted strings. */
  lemma DecodeIff(s: string, t: TimeOfDay)
    ensures Decode(s) == Some(t) <==> s == Label(t)
  {
  }

  lemma DecodeIsCaseSensitive()
    ensures Decode("AM") == None && Decode("Pre") == None
    ensures Decode("MID") == None && Decode("PM") == None
    ensures Decode("mid") == Some(MID)
  {
  }

  /** The clock times a day part covers (`timespan::NaiveTimeSpan`). */
  datatype ClockSpan = ClockSpan(start: SecondOfDay, end: SecondOfDay)

  /** `TimeOfDay::span`, whose body is not part of this model: operations that
      need it take it as a parameter. */
  type DayPartSpans = TimeOfDay -> Result<ClockSpan, SpanError>
}
