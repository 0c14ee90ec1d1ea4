/** `DataManager::from`: symptom records grouped by name, each group a date
    map keyed by the span the record's day part covers. */
module DataManager {
  import opened Wrappers
  import opened Calendar
  import opened DateMap
  import opened TimeOfDay
  import opened Symptoms

  /** `DataManager::symptoms`. */
  type Store = map<string, DateMap<Symptom>>

  /** The map a name has so far; a name not yet seen has none, and the loop
      creates an empty one for it. */
  function MapOf(store: Store, name: string): DateMap<Symptom> {
    if name in store then store[name] else []
  }

  /** One pass of the loop: make sure the name has a map, then insert the
      record under its span, or leave the map alone when the span fails. */
  function Step(store: Store, sym: Symptom, dayPart: DayPartSpans): (r: Store)
    ensures r.Keys == store.Keys + {sym.name}
    ensures forall n :: n in store && n != sym.name ==> r[n] == store[n]
    ensures DateTimeSpan(sym, dayPart).Err? ==> r[sym.name] == MapOf(store, sym.name)
    ensures DateTimeSpan(sym, dayPart).Ok? ==>
      r[sym.name] == Insert(MapOf(store, sym.name), DateTimeSpan(sym, dayPart).value, sym)
  {
    var m := MapOf(store, sym.name);
    match DateTimeSpan(sym, dayPart)
    case Ok(span) => store[sym.name := Insert(m, span, sym)]
    case Err(_) => store[sym.name := m]
  }

  /** `DataManager::from`, the loop over the records in order. */
  function FromSymptoms(symptoms: seq<Symptom>, dayPart: DayPartSpans): Store
    decreases |symptoms|
  {
    if |symptoms| == 0 then map[]
    else Step(FromSymptoms(symptoms[..|symptoms| - 1], dayPart), symptoms[|symptoms| - 1], dayPart)
  }

  function Names(symptoms: seq<Symptom>): set<string> {
    set i | 0 <= i < |symptoms| :: symptoms[i].name
  }

  /** How many records carry the name. */
  function Count(symptoms: seq<Symptom>, name: string): nat {
    if |symptoms| == 0 then 0
    else Count(symptoms[..|symptoms| - 1], name) + (if symptoms[|symptoms| - 1].name == name then 1 else 0)
  }

  lemma NamesSnoc(symptoms: seq<Symptom>)
    requires |symptoms| > 0
    ensures Names(symptoms) == Names(symptoms[..|symptoms| - 1]) + {symptoms[|symptoms| - 1].name}
  {
    var init := symptoms[..|symptoms| - 1];
    forall x | x in Names(symptoms)
      ensures x in Names(init) + {symptoms[|symptoms| - 1].name}
    {
      var i :| 0 <= i < |symptoms| && symptoms[i].name == x;
      if i < |init| {
        assert init[i] == symptoms[i];
      }
    }
    forall x | x in Names(init)
      ensures x in Names(symptoms)
    {
      var i :| 0 <= i < |init| && init[i].name == x;
      assert symptoms[i] == init[i];
    }
  }

  /** Every name that occurs gets a map, even one whose records all fail,
      and no other name does. */
  lemma {:induction false} KeysAreNames(symptoms: seq<Symptom>, dayPart: DayPartSpans)
    ensures FromSymptoms(symptoms, dayPart).Keys == Names(symptoms)
    decreases |symptoms|
  {
    if |symptoms| > 0 {
      KeysAreNames(symptoms[..|symptoms| - 1], dayPart);
      NamesSnoc(symptoms);
    }
  }

  /** Every map keeps the date map's ordering invariant. */
  lemma {:induction false} MapsAreOrdered(symptoms: seq<Symptom>, dayPart: DayPartSpans)
    ensures forall n :: n in FromSymptoms(symptoms, dayPart) ==> IsOrdered(FromSymptoms(symptoms, dayPart)[n])
    decreases |symptoms|
  {
    if |symptoms| > 0 {
      var init := symptoms[..|symptoms| - 1];
      var last := symptoms[|symptoms| - 1];
      MapsAreOrdered(init, dayPart);
      var m := MapOf(FromSymptoms(init, dayPart), last.name);
      var span := DateTimeSpan(last, dayPart);
      if span.Ok? {
        InsertKeepsOrder(m, span.value, last);
      }
    }
  }

  /** A name's map holds at most one entry per record of that name. */
  lemma {:induction false} MapSizeBound(symptoms: seq<Symptom>, dayPart: DayPartSpans)
    ensures forall n :: n in FromSymptoms(symptoms, dayPart) ==> |FromSymptoms(symptoms, dayPart)[n]| <= Count(symptoms, n)
    decreases |symptoms|
  {
    if |symptoms| > 0 {
      var init := symptoms[..|symptoms| - 1];
      var last := symptoms[|symptoms| - 1];
      MapSizeBound(init, dayPart);
      var m := MapOf(FromSymptoms(init, dayPart), last.name);
      var span := DateTimeSpan(last, dayPart);
      if span.Ok? {
        InsertKeepsOrderSize(m, span.value, last);
      }
    }
  }

  lemma InsertKeepsOrderSize(m: DateMap<Symptom>, k: Span, v: Symptom)
    ensures |Insert(m, k, v)| <= |m| + 1
  {
  }

  /** The facts every stored entry carries. */
  predicate StoredFor(e: Entry<Symptom>, name: string, symptoms: seq<Symptom>, dayPart: DayPartSpans) {
    && e.value.name == name
    && e.value in symptoms
    && DateTimeSpan(e.value, dayPart).Ok?
    && Cmp(DateTimeSpan(e.value, dayPart).value, e.key) == Equal
  }

  /** Every stored record is one of the input records, filed under its own
      name, with a span that succeeded and overlaps the key it sits under. */
  lemma {:induction false} EntriesAreRecords(symptoms: seq<Symptom>, dayPart: DayPartSpans)
    ensures forall n, e :: n in FromSymptoms(symptoms, dayPart) && e in FromSymptoms(symptoms, dayPart)[n] ==>
      StoredFor(e, n, symptoms, dayPart)
    decreases |symptoms|
  {
    if |symptoms| > 0 {
      var init := symptoms[..|symptoms| - 1];
      var last := symptoms[|symptoms| - 1];
      var old_ := FromSymptoms(init, dayPart);
      var r := FromSymptoms(symptoms, dayPart);
      EntriesAreRecords(init, dayPart);
      MapsAreOrdered(init, dayPart);
      forall n, e | n in r && e in r[n]
        ensures StoredFor(e, n, symptoms, dayPart)
      {
        var span := DateTimeSpan(last, dayPart);
        if n == last.name && span.Ok? {
          var m := MapOf(old_, n);
          InsertEntries(m, span.value, last);
          if e in m {
            assert StoredFor(e, n, init, dayPart);
            assert e.value in symptoms by {
              var i :| 0 <= i < |init| && init[i] == e.value;
              assert symptoms[i] == init[i];
            }
          } else {
            assert e.value == last;
            if n in old_ {
              assert IsOrdered(m);
            }
            KeyIsWellFormed(m, span.value, last, e);
            CmpAntisymmetric(span.value, e.key);
          }
        } else {
          assert e in old_[n];
          assert StoredFor(e, n, init, dayPart);
          assert e.value in symptoms by {
            var i :| 0 <= i < |init| && init[i] == e.value;
            assert symptoms[i] == init[i];
          }
        }
      }
    }
  }

  /** The keys of an ordered map stay well formed after an insertion. */
  lemma KeyIsWellFormed(m: DateMap<Symptom>, k: Span, v: Symptom, e: Entry<Symptom>)
    requires IsOrdered(m) && WellFormed(k) && e in Insert(m, k, v)
    ensures WellFormed(e.key)
  {
    InsertKeepsOrder(m, k, v);
  }

  /** The record is represented in the store: when its span succeeds, its
      name's map has a key that the span overlaps. */
  ghost predicate Covered(store: Store, x: Symptom, dayPart: DayPartSpans) {
    DateTimeSpan(x, dayPart).Ok? ==>
      && x.name in store
      && exists k :: k in KeySet(store[x.name]) && Cmp(DateTimeSpan(x, dayPart).value, k) == Equal
  }

  /** A step covers the record it inserts and keeps covering every record it
      covered before. */
  lemma StepCovers(store: Store, sym: Symptom, x: Symptom, dayPart: DayPartSpans)
    requires x == sym || Covered(store, x, dayPart)
    ensures Covered(Step(store, sym, dayPart), x, dayPart)
  {
    var r := Step(store, sym, dayPart);
    var span := DateTimeSpan(sym, dayPart);
    if x == sym {
      if span.Ok? {
        var m := MapOf(store, sym.name);
        InsertStoresValue(m, span.value, sym);
        var after: DateMap<Symptom> := Insert(m, span.value, sym);
        assert r[sym.name] == after;
        var j :| 0 <= j < |after| && after[j].value == sym && Cmp(span.value, after[j].key) == Equal;
        assert after[j].key in KeySet(after);
      }
    } else if DateTimeSpan(x, dayPart).Ok? {
      StepKeepsKeys(store, sym, dayPart);
      var k :| k in KeySet(store[x.name]) && Cmp(DateTimeSpan(x, dayPart).value, k) == Equal;
      assert k in KeySet(r[x.name]);
    }
  }

  /** Every record whose span succeeds is represented: its map has a key that
      its span overlaps.  Later records may replace its value, never its key. */
  lemma {:induction false} RecordsAreCovered(symptoms: seq<Symptom>, dayPart: DayPartSpans)
    ensures forall i :: 0 <= i < |symptoms| ==> Covered(FromSymptoms(symptoms, dayPart), symptoms[i], dayPart)
    decreases |symptoms|
  {
    if |symptoms| > 0 {
      var init := symptoms[..|symptoms| - 1];
      var last := symptoms[|symptoms| - 1];
      var old_ := FromSymptoms(init, dayPart);
      RecordsAreCovered(init, dayPart);
      forall i | 0 <= i < |symptoms|
        ensures Covered(FromSymptoms(symptoms, dayPart), symptoms[i], dayPart)
      {
        if i < |init| {
          assert init[i] == symptoms[i];
        }
        StepCovers(old_, last, symptoms[i], dayPart);
      }
    }
  }

  /** A step never removes a key from any map. */
  lemma StepKeepsKeys(store: Store, sym: Symptom, dayPart: DayPartSpans)
    ensures forall n :: n in store ==> KeySet(store[n]) <= KeySet(Step(store, sym, dayPart)[n])
  {
    var span := DateTimeSpan(sym, dayPart);
    if span.Ok? {
      InsertKeys(MapOf(store, sym.name), span.value, sym);
    }
  }

  /** A name's map is empty exactly when every record of that name has a
      failing span. */
  lemma EmptyIffAllFail(symptoms: seq<Symptom>, dayPart: DayPartSpans, name: string)
    requires name in Names(symptoms)
    ensures name in FromSymptoms(symptoms, dayPart)
    ensures FromSymptoms(symptoms, dayPart)[name] == [] <==>
      forall i :: 0 <= i < |symptoms| && symptoms[i].name == name ==> DateTimeSpan(symptoms[i], dayPart).Err?
  {
    var r := FromSymptoms(symptoms, dayPart);
    KeysAreNames(symptoms, dayPart);
    RecordsAreCovered(symptoms, dayPart);
    EntriesAreRecords(symptoms, dayPart);
    if r[name] != [] {
      var e := r[name][0];
      assert StoredFor(e, name, symptoms, dayPart);
      var i :| 0 <= i < |symptoms| && symptoms[i] == e.value;
      assert DateTimeSpan(symptoms[i], dayPart).Ok?;
    }
  }

  /** The last record is always stored, under a key its span overlaps. */
  lemma LastRecordIsStored(symptoms: seq<Symptom>, dayPart: DayPartSpans)
    requires |symptoms| > 0 && DateTimeSpan(symptoms[|symptoms| - 1], dayPart).Ok?
    ensures var last := symptoms[|symptoms| - 1];
      exists e :: e in FromSymptoms(symptoms, dayPart)[last.name] && e.value == last
                  && Cmp(DateTimeSpan(last, dayPart).value, e.key) == Equal
  {
    var init := symptoms[..|symptoms| - 1];
    var last := symptoms[|symptoms| - 1];
    var m := MapOf(FromSymptoms(init, dayPart), last.name);
    var span := DateTimeSpan(last, dayPart).value;
    InsertStoresValue(m, span, last);
    var r := Insert(m, span, last);
    var j :| 0 <= j < |r| && r[j].value == last && Cmp(span, r[j].key) == Equal;
    assert r[j] in r;
  }

  /** Two overlapping records of one name: the later record is kept, under the
      earlier record's span. */
  lemma LaterOverlapWins(a: Symptom, b: Symptom, dayPart: DayPartSpans)
    requires a.name == b.name
    requires DateTimeSpan(a, dayPart).Ok? && DateTimeSpan(b, dayPart).Ok?
    requires Cmp(DateTimeSpan(a, dayPart).value, DateTimeSpan(b, dayPart).value) == Equal
    ensures FromSymptoms([a, b], dayPart) == map[a.name := [Entry(DateTimeSpan(a, dayPart).value, b)]]
  {
    var sa := DateTimeSpan(a, dayPart).value;
    var sb := DateTimeSpan(b, dayPart).value;
    assert [a, b][..1] == [a];
    assert [a][..0] == [];
    OverlapInsertOrderMatters(sa, sb, a, b);
    assert FromSymptoms([a], dayPart) == map[a.name := Insert([], sa, a)];
    assert FromSymptoms([a, b], dayPart) == map[a.name := Insert(Insert([], sa, a), sb, b)];
  }

  /** Day parts whose clock windows share their boundary make a morning record
      replace a same-day pre-dawn record of the same name, rather than sit next
      to it. */
  lemma TouchingDayPartsCollide(name: string, date: Date, x: U8, y: U8, dayPart: DayPartSpans, t0: SecondOfDay, t1: SecondOfDay, t2: SecondOfDay)
    requires t0 <= t1 <= t2
    requires dayPart(PRE) == Ok(ClockSpan(t0, t1)) && dayPart(AM) == Ok(ClockSpan(t1, t2))
    ensures var pre := Symptom(name, date, PRE, x);
      var am := Symptom(name, date, AM, y);
      FromSymptoms([pre, am], dayPart) == map[name := [Entry(Span(DateTime(date, t0), DateTime(date, t1)), am)]]
  {
    var pre := Symptom(name, date, PRE, x);
    var am := Symptom(name, date, AM, y);
    assert DateTimeSpan(pre, dayPart) == Ok(Span(DateTime(date, t0), DateTime(date, t1)));
    assert DateTimeSpan(am, dayPart) == Ok(Span(DateTime(date, t1), DateTime(date, t2)));
    LaterOverlapWins(pre, am, dayPart);
  }

  /** Day parts whose windows are apart keep both records. */
  lemma SeparateDayPartsCoexist(name: string, date: Date, x: U8, y: U8, dayPart: DayPartSpans, t0: SecondOfDay, t1: SecondOfDay, t2: SecondOfDay, t3: SecondOfDay)
    requires t0 <= t1 < t2 <= t3
    requires dayPart(PRE) == Ok(ClockSpan(t0, t1)) && dayPart(AM) == Ok(ClockSpan(t2, t3))
    ensures var pre := Symptom(name, date, PRE, x);
      var am := Symptom(name, date, AM, y);
      FromSymptoms([pre, am], dayPart)
        == map[name := [Entry(Span(DateTime(date, t0), DateTime(date, t1)), pre),
                        Entry(Span(DateTime(date, t2), DateTime(date, t3)), am)]]
  {
    var pre := Symptom(name, date, PRE, x);
    var am := Symptom(name, date, AM, y);
    var sp := Span(DateTime(date, t0), DateTime(date, t1));
    var sa := Span(DateTime(date, t2), DateTime(date, t3));
    assert DateTimeSpan(pre, dayPart) == Ok(sp);
    assert DateTimeSpan(am, dayPart) == Ok(sa);
    assert [pre, am][..1] == [pre];
    assert [pre][..0] == [];
    assert FromSymptoms([pre], dayPart) == map[name := [Entry(sp, pre)]];
    assert Cmp(sa, sp) == Greater;
    assert Insert([Entry(sp, pre)], sa, am) == [Entry(sp, pre), Entry(sa, am)];
  }
}
