# bearable-csv-analyzer, the model layer in Dafny

The analyzer reads a CSV export of the Bearable symptom-tracking app and
charts one symptom's severity over a chosen date range. This project models
that program's model layer and the small pure helpers around it as immutable
datatypes and pure functions, and proves properties of them.

- **Spans and the overlap ordering** (`DateMap`). A span is a pair of
  date-times. `OrderedNaiveDateTimeSpan` orders two spans as follows:
  - `Less` when the first ends before the second starts;
  - `Greater` when it starts after the second ends;
  - `Equal` otherwise, that is, whenever the spans overlap or touch.
- **`BTreeDateMap`** (`DateMap`), the map keyed by that ordering. It is
  modelled as its in-order entry sequence. Insertion stops at the first
  stored key that the new key is not `Greater` than. If that key is `Equal`,
  the stored key stays and takes the new value. Otherwise the new entry is
  placed there.
- **Dates** (`Calendar`). chrono's `NaiveDate` is a valid (year, month, day)
  inside chrono's year range. `NaiveDateTime` is a date plus a second of the
  day, ordered lexicographically.
- **Day parts** (`TimeOfDay`). `TimeOfDay` has four variants with
  lower-case labels, decoded case-sensitively.
- **Row decoding** (`Parser`). The Bearable date field ("8th Dec 2021") is
  decoded by a regex search followed by chrono's `%d%b%Y` parser. Both are
  written out as string functions. The typed fields of `CsvRow` are decoded
  here too.
- **Records** (`Symptoms`). `Symptom::from` strips the severity suffix from
  the name with the name regex and parses the amount as a `u8`.
  `Symptom::date_time_span` places a day part's clock window on the record's
  date.
- **The store** (`DataManager`). `DataManager::from` groups the records by
  name into one date map per name.
- **The chart query** (`Provider`). `Provider::fetch_chart` chooses the
  symptom and builds the one-second anchor spans that bound the query range.
- **Front-end helpers** (`Frontend`). `format_date_for_html` writes the
  `%Y-%m-%d` bounds of the date inputs, and a symptom is selected by default
  once a file loads.

Supporting modules:

- `Wrappers` holds `Option` and `Result`.
- `Digits` holds character classes and decimal text.

Where the source panics (`expect`, `unwrap`, indexing an empty list), the
model returns an error value instead.

The source calls three functions whose bodies are not part of this model.
Each becomes a function parameter:

- `TimeOfDay::span` becomes `dayPart`;
- `DataManager::get_symptom_names` becomes `symptomNames`;
- `DataManager::get_basic_symptoms_scatterplot` becomes `scatter`.

`Frontend.ParseHtmlDate` reads a `yyyy-mm-dd` value the way a date input
hands it back. It is not in the source; it is the inverse against which
`format_date_for_html` is proved.

### Notes on the source's behaviour

- `DataManager::from` never fails. A record whose span cannot be built is
  skipped. Its name still gets a map, which may stay empty
  (`DataManager.EmptyIffAllFail`).
- The end-date anchor is placed at 11:59:59, not at the end of the day. Keys
  on the end date that end at 11:59:58 or later fall outside the query range
  (`Provider.EndDateAfternoonIsExcluded`).
- Spans that merely touch compare `Equal`. Suppose the pre-dawn and morning
  windows share their boundary instant. Then a morning record of the same
  name and date replaces the pre-dawn record's value under the pre-dawn key,
  instead of sitting beside it (`DataManager.TouchingDayPartsCollide`).
  Windows that are apart keep both records
  (`DataManager.SeparateDayPartsCoexist`).
- `Symptom::from` decodes `row.time_of_day` from text
  (src/model/symptoms/symptom.rs:29). `CsvRow` declares that field as a
  `TimeOfDay` already (src/model/parser.rs:14-15). The model follows the
  declaration:
  - `Parser.DecodeRow` decodes the label;
  - `Symptoms.FromRow` copies the decoded value.
- `Provider.FetchChart` models `fetch_chart` with the four parameters it is
  declared with (src/provider.rs:10): data manager, symptom, start date and
  end date. The call in src/main.rs:76 passes only two arguments and does not
  match that declaration. The model follows the declaration, whose body is
  the logic being modelled.

## Model

| member | source | states |
|---|---|---|
| DateMap.NewSpan | src/model/symptoms/symptom.rs:37 | `Span::new` succeeds exactly when the end is not before the start, keeps both endpoints, and its spans are well formed |
| DateMap.PartialCmp | src/model/date_map.rs:25-35 | always `Some`; `Less` exactly when a ends before b starts; `Greater` exactly when not `Less` and a starts after b ends; `Equal` in every other case, so `cmp`'s `unwrap` never fails |
| DateMap.Cmp | src/model/date_map.rs:19-23 | `Ord::cmp` unwraps `partial_cmp`; the unwrap never fails because `DateMap.PartialCmp` is always `Some`, and its meaning is stated by `DateMap.EqualIffOverlap`, `DateMap.CmpAntisymmetric` and `DateMap.LessTransitive` (no contract of its own) |
| DateMap.EqualIffOverlap | src/model/date_map.rs:26-34 | on well-formed spans, `Equal` holds exactly when the two spans share an instant, touching endpoints included |
| DateMap.CmpReflexive | src/model/date_map.rs:19-23 | a well-formed span compares `Equal` to itself |
| DateMap.CmpIrreflexiveWhenReversed | src/model/date_map.rs:27-28 | a span whose end precedes its start compares `Less` to itself |
| DateMap.CmpAntisymmetric | src/model/date_map.rs:26-34 | for well-formed spans, a < b exactly when b > a, and `Equal` is symmetric |
| DateMap.LessTransitive | src/model/date_map.rs:27-28 | `Less` is transitive through a well-formed middle span |
| DateMap.EqualNotTransitive | src/model/date_map.rs:26-34 | [0 s,1 s] and [2 s,3 s] each compare `Equal` to [1 s,2 s] but `Less` to each other |
| DateMap.StructuralEqualityImpliesEqual | src/model/date_map.rs:8-9 | structurally equal well-formed spans (derived `PartialEq`) compare `Equal` |
| DateMap.EqualIsNotStructuralEquality | src/model/date_map.rs:8-37 | two different well-formed spans compare `Equal`, so `==` and `cmp` disagree |
| DateMap.Insert | src/model/date_map.rs:39-64 | `BTreeMap::insert`: at the first key the new key is not `Greater` than, the value is replaced when that key compares `Equal` (the stored key is kept); otherwise the new entry is placed there |
| DateMap.InsertKeepsOrder | src/model/date_map.rs:39-64 | insertion into an ordered map keeps its keys well formed and pairwise `Less`, and adds at most one entry |
| DateMap.InsertKeys | src/model/date_map.rs:39-64 | the key set after insertion is the old key set, plus the new key exactly when no stored key compared `Equal` |
| DateMap.InsertStoresValue | src/model/date_map.rs:39-64 | after insertion the new value sits under a key that the new key compares `Equal` to |
| DateMap.InsertEntries | src/model/date_map.rs:39-64 | every entry after insertion was there before, or carries the new value under a key `Equal` to the new key |
| DateMap.IterMin | src/model/date_map.rs:78 | `iter().min()` is `Some` exactly for a non-empty map and returns one of its entries |
| DateMap.OrderedMinIsFirst | src/model/date_map.rs:78 | in an ordered map the minimum entry is the first, whose key is `Less` than every other key |
| DateMap.MinOfTwoDisjoint | src/model/date_map.rs:71-79 | after inserting two disjoint spans in either order, the minimum is the earlier span with its own value |
| DateMap.OverlapInsertOrderMatters | src/model/date_map.rs:31-32 | two overlapping spans collapse to one entry holding the first key and the last value |
| DateMap.MinOfYearSpans | src/model/date_map.rs:70-79 | the repository's map test: the 2017 span with `false` is the minimum |
| TimeOfDay.Decode | src/model/time_of_day.rs:3-10 | a decoded variant's label is the input, and a rejected input is no variant's label |
| TimeOfDay.DecodeLabel | src/model/time_of_day.rs:3-10 | decoding a variant's label gives the variant back; distinct variants have distinct labels |
| TimeOfDay.DecodeIff | src/model/time_of_day.rs:4-10 | a string decodes to a variant exactly when it is that variant's lower-case label |
| TimeOfDay.DecodeIsCaseSensitive | src/model/time_of_day.rs:4 | "AM", "Pre", "MID" and "PM" are rejected, and "mid" decodes to `MID` |
| Parser.MatchAt | src/model/parser.rs:38 | a match attempt at a position yields groups that form an instance of `(\d*)(\w*) (\w\w\w) (\d\d\d\d)` there, with the greedy day group |
| Parser.MatchAtComplete | src/model/parser.rs:38 | every instance of the pattern at a position is found by the attempt there, and it is the one found when its day group is greedy |
| Parser.Search | src/model/parser.rs:42 | `captures` returns the first position where an attempt matches; every earlier position fails, and `None` means no position matches |
| Parser.SearchIsLeftmostFirst | src/model/parser.rs:38-42 | the search succeeds exactly when the text holds an instance of the pattern, and returns the leftmost instance with greedy groups |
| Parser.MonthNumber | src/model/parser.rs:32 | `%b` maps a three-letter English abbreviation, ignoring ASCII case, to its month 1..12 and rejects every other text |
| Parser.Reformat | src/model/parser.rs:48 | the `format!` joining groups 1, 3 and 4 and dropping group 2; where each group lands in the result is stated by `Parser.ReformatFields` (no contract of its own) |
| Parser.ParseDayMonthYear | src/model/parser.rs:49 | chrono's `parse_from_str(…, "%d%b%Y")`: what it accepts and returns on the joined groups is stated by `Parser.ParseReformatted` and `Parser.ParseRejectsMisplacedDay` (no contract of its own) |
| Parser.ParseRejectsMisplacedDay | src/model/parser.rs:48-49 | when the day group is empty, longer than two digits, or one digit followed by a digit in the month group, chrono rejects the joined text |
| Parser.ParseReformatted | src/model/parser.rs:48-49 | chrono's `%d%b%Y` accepts day ++ month ++ year exactly when they name a calendar date, and then yields that date |
| Parser.DecodeBearableDate | src/model/parser.rs:34-50 | fails with no-date exactly when the pattern never matches; otherwise succeeds exactly when groups 1, 3 and 4 name a date, which is the result; group 2 plays no part |
| Parser.DecodeEncode | src/model/parser.rs:34-50 | every date with a four-digit year, written "8th Dec 2021"-style, decodes back to itself |
| Parser.DecodeExampleDate | src/model/parser.rs:64-71 | "8th Dec 2021" decodes to 2021-12-08 |
| Parser.DecodeRow | src/model/parser.rs:8-24 | a row decodes exactly when its date and its day-part label decode; the label is the variant's name; the other five fields are copied verbatim |
| Parser.DecodeExampleRow | src/model/parser.rs:63-81 | the repository's sample row decodes to the expected `CsvRow` |
| Symptoms.MatchName | src/model/symptoms/symptom.rs:43-46 | the name regex matches exactly when a space-preceded parenthesised severity occurs; the capture is leftmost and, from there, longest, without crossing a line feed |
| Symptoms.ParseName | src/model/symptoms/symptom.rs:41-49 | a name is produced exactly when a severity marker occurs, and it is at least seven characters shorter than the input |
| Symptoms.ParseNameSingleLine | src/model/symptoms/symptom.rs:43-48 | on one line, the name is the prefix before a marker, and no marker starts after it |
| Symptoms.ParseNameSuffix | src/model/symptoms/symptom.rs:41-49 | a single-line name followed by " (Mild)", " (Moderate)", " (Severe)" or " (Unbearable)" parses back to the name |
| Symptoms.ParseExampleName | src/model/symptoms/symptom.rs:41-49 | "Neck pain (Moderate)" gives "Neck pain" |
| Symptoms.ParseU8 | src/model/symptoms/symptom.rs:30 | `str::parse::<u8>`: `Empty` exactly for ""; success exactly for an optional '+' then digits worth at most 255, with that value; `PosOverflow` exactly when a digit prefix exceeds 255 before any non-digit |
| Symptoms.ParseU8Examples | src/model/symptoms/symptom.rs:30 | "2", "+7" and "255" parse; "", "+", "-1", "2a" are invalid and "256", "1000a" overflow |
| Symptoms.FromRow | src/model/symptoms/symptom.rs:26-33 | a name without a severity is the first error; success exactly when the name and the amount parse; the date and day part are copied, the name is the parsed name and the severity the amount's decimal value |
| Symptoms.FromExampleRow | src/model/symptoms/symptom.rs:26-33 | the sample row becomes "Neck pain" on 2021-12-08, `MID`, severity 2 |
| Symptoms.DateTimeSpan | src/model/symptoms/symptom.rs:35-39 | a failing day part's error propagates; otherwise it fails with out-of-order exactly when the window ends before it starts; a result is well formed with both ends on the record's date at the window's times |
| Symptoms.EarlierDateIsLess | src/model/symptoms/symptom.rs:35-39 | a record on an earlier date has a span `Less` than a later date's record |
| Symptoms.SameDayPartIsEqual | src/model/symptoms/symptom.rs:35-39 | records with the same date and day part get `Equal` spans |
| DataManager.FromSymptoms | src/model/data_manager.rs:15-33 | `DataManager::from`, the loop over the records in order; what it builds is stated by `DataManager.KeysAreNames`, `DataManager.MapsAreOrdered`, `DataManager.MapSizeBound`, `DataManager.EntriesAreRecords`, `DataManager.RecordsAreCovered` and `DataManager.EmptyIffAllFail` (no contract of its own) |
| DataManager.Step | src/model/data_manager.rs:18-27 | one loop pass gives the record's name a map and leaves every other name's map unchanged; the name's map takes the record under its span when the span succeeds and stays as it was when the span fails |
| DataManager.KeysAreNames | src/model/data_manager.rs:17-20 | the store's names are exactly the records' names, including names whose spans all fail |
| DataManager.MapsAreOrdered | src/model/data_manager.rs:17-28 | every map keeps well-formed, pairwise `Less` keys |
| DataManager.MapSizeBound | src/model/data_manager.rs:24 | a name's map holds at most as many entries as there are records of that name |
| DataManager.EntriesAreRecords | src/model/data_manager.rs:21-24 | every stored value is an input record of that map's name whose span succeeded and compares `Equal` to its key |
| DataManager.RecordsAreCovered | src/model/data_manager.rs:22-24 | every record whose span succeeds has, in its name's map, a key its span compares `Equal` to |
| DataManager.EmptyIffAllFail | src/model/data_manager.rs:18-27 | a name's map is empty exactly when every record of that name has a failing span |
| DataManager.LastRecordIsStored | src/model/data_manager.rs:21-24 | the last record, when its span succeeds, is stored under a key its span compares `Equal` to |
| DataManager.LaterOverlapWins | src/model/data_manager.rs:24 | for two same-name records with overlapping spans, the later record is stored under the earlier record's span |
| DataManager.TouchingDayPartsCollide | src/model/data_manager.rs:17-28 | pre-dawn and morning windows sharing a boundary leave one entry: the pre-dawn key with the morning record |
| DataManager.SeparateDayPartsCoexist | src/model/data_manager.rs:17-28 | windows apart leave both records, in time order |
| Calendar.AddOneSecond | src/provider.rs:18 | `checked_add_signed(1 s)` fails only at chrono's last instant and otherwise lands one second later |
| Calendar.SubOneSecond | src/provider.rs:26 | `checked_sub_signed(1 s)` fails only at chrono's first instant and otherwise lands one second earlier |
| Calendar.AddOneSecondIsSuccessor | src/provider.rs:18 | the date-time one second later is later in chrono's order, with no date-time strictly between |
| Calendar.SubOneSecondIsPredecessor | src/provider.rs:26 | the date-time one second earlier is earlier in chrono's order, with no date-time strictly between |
| Provider.StartAnchor | src/provider.rs:16-20 | the start anchor is the well-formed span [d 00:00:00, d 00:00:01], so neither `unwrap` fails |
| Provider.EndAnchor | src/provider.rs:24-28 | the end anchor is the well-formed span [d 11:59:58, d 11:59:59], so neither `unwrap` fails |
| Provider.StartSpan | src/provider.rs:15-22 | the range's lower bound is well formed: the start anchor of a chosen date, or 2021-11-19 11:30:00 to 11:31:00 when none is chosen |
| Provider.EndSpan | src/provider.rs:23-30 | the range's upper bound is well formed: the end anchor of a chosen date, or 2021-11-25 11:30:00 to 11:31:00 when none is chosen |
| Provider.FetchChart | src/provider.rs:10-33 | no data manager gives `None`; the only error is no symptom chosen with an empty name list; otherwise the chart of the chosen name (or the first name) over start anchor..end anchor, defaults for absent dates |
| Provider.InRange | src/provider.rs:31 | `Range::contains` on `start_span..end_span`: `start <= k && k < end` under the overlap ordering; what it selects is stated by `Provider.RangeContains` and `Provider.ChosenDatesSelect` (no contract of its own) |
| Provider.RangeContains | src/provider.rs:31 | a well-formed key lies in `s..e` exactly when it ends no earlier than `s` starts and before `e` starts |
| Provider.AnchorOrder | src/provider.rs:15-31 | the start anchor is `Less` than the end anchor exactly when the start date is not after the end date, and never `Equal` |
| Provider.DefaultsOrdered | src/provider.rs:15-30 | the two default spans are well formed and `Less` one than the other |
| Provider.ChosenDatesSelect | src/provider.rs:15-31 | a well-formed key is in the range exactly when it ends at or after midnight of the start date and before 11:59:58 on the end date |
| Provider.DaysBeforeEndAreSelected | src/provider.rs:23-31 | a key within one day from the start date up to the day before the end date is in the range |
| Provider.EndDateAfternoonIsExcluded | src/provider.rs:25-26 | a key ending on the end date at 11:59:58 or later is not in the range |
| Provider.NoDataNoChart | src/provider.rs:11-32 | without a data manager the result is `None`, whatever the other arguments |
| Frontend.FormatYear | src/main.rs:52 | `%Y`: four digits with the year's value for years 0..9999; otherwise a sign followed by four to six digits whose value is the year's magnitude |
| Frontend.FormatDate | src/main.rs:52 | `%Y-%m-%d` on a date: year, then month and day as two zero-padded digits; its shape, read-back, injectivity and order are stated by `Frontend.FormatDateRoundTrip`, `Frontend.FormatDateInjective` and `Frontend.FormatDateOrder` (no contract of its own) |
| Frontend.FormatDateForHtml | src/main.rs:199-201 | for years 0..9999 the text is ten characters with '-' at 4 and 7 and reads back as the date part |
| Frontend.FormatDateRoundTrip | src/main.rs:199-201 | a date with a four-digit year formats to ten characters that read back as the same date |
| Frontend.SameDaySameText | src/main.rs:200 | two date-times on the same date give the same text |
| Frontend.FormatDateInjective | src/main.rs:52 | for four-digit years, equal texts mean equal dates |
| Frontend.FormatDateOrder | src/main.rs:148-149 | for four-digit years, string order of the texts is date order, which the inputs' `min` and `max` bounds rely on |
| Frontend.NegativeYearIsLonger | src/main.rs:52 | the year -1 is written with a sign, giving eleven characters |
| Frontend.DefaultSelection | src/main.rs:120 | the first name, or `None` exactly when the list is empty |
| Frontend.DefaultSelectionMatchesFallback | src/main.rs:120 | charting with the default selection is charting with no selection |

## Left out

- CSV splitting, quoting and header matching by the `csv` crate
  (src/model/parser.rs:53-57). Decoding starts from the seven fields of a
  record (`Parser.RawRow`).
- The regex engine itself. The two patterns are written out as string
  functions. `\d` and `\w` are taken as ASCII digits and ASCII word
  characters, not their Unicode classes.
- `BTreeMap`'s node splitting and rebalancing. Only the in-order entry
  sequence is modelled.
- DateMap.Insert: a new key can compare `Equal` to several stored keys,
  for example a window touching both its neighbours. The model then
  overwrites the leftmost of them. `BTreeMap` searches from the root, so it
  agrees with the model only while the map fits in one node (11 entries or
  fewer); a larger map may overwrite another of those keys. The ordering,
  key-set and value facts proved about `DateMap.Insert` hold for any size.
- `HashMap` iteration order. The store is a Dafny `map`, and the order of
  names comes in through the `symptomNames` parameter.
- The bodies of `TimeOfDay::span`, `DataManager::get_symptom_names`,
  `DataManager::get_basic_symptoms_scatterplot`,
  `DataManager::get_symptom_date_range` and
  `parser::parse_into_data_manager_str`. None of them is part of this
  model.
- The `timespan` crate's parsing of the two default spans
  (src/provider.rs:21, 29). The resulting spans are written as constants.
- The Yew component, its messages, views and callbacks, file reading,
  `main`, the JavaScript chart and logging. These are UI glue, browser I/O
  and side effects.
- `BTreeDateMap::get_str` (src/model/date_map.rs:47-49), a constant string
  stub.
- Sub-second times and leap seconds. Date-times are whole seconds.
- Symptoms.ParseU8: works on characters rather than UTF-8 bytes. A
  non-ASCII character yields `InvalidDigit` either way.
- Parser.DecodeEncode: stated only for years 0..9999. Other years have
  no four-digit rendering for the pattern's `(\d\d\d\d)` group.
- Frontend.FormatDateForHtml: the ten-character shape and the read-back
  are stated only for years 0..9999. Outside that range only the signed
  year form is stated (`Frontend.FormatYear`,
  `Frontend.NegativeYearIsLonger`).
