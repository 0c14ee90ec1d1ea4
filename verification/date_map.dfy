/** The span type of the `timespan` crate, the overlap ordering that
    `OrderedNaiveDateTimeSpan` puts on it, and `BTreeDateMap`, the ordered map
    keyed by that ordering.

    The map is modelled as its in-order entry sequence.  Insertion scans it from
    the left for the first key that does not compare `Greater` than the new key,
    as the linear search inside a B-tree node does. */
module DateMap {
  import opened Wrappers
  import opened Calendar

  /** `std::cmp::Ordering`. */
  datatype Ordering = Less | Equal | Greater

  /** The errors of the `timespan` crate that the model can produce. */
  datatype SpanError = OutOfOrder | DayPartFailed

  /** `timespan::NaiveDateTimeSpan`; wrapped by `OrderedNaiveDateTimeSpan`,
      whose derived `PartialEq` is this datatype's structural equality. */
  datatype Span = Span(start: DateTime, end: DateTime)

  /** Every span built by `Span::new` satisfies this. */
  predicate WellFormed(s: Span) {
    !Before(s.end, s.start)
  }

  /** `Span::new`: refuses an end before the start. */
  function NewSpan(start: DateTime, end: DateTime): (r: Result<Span, SpanError>)
    ensures r.Ok? <==> !Before(end, start)
    ensures r.Ok? ==> r.value.start == start && r.value.end == end && WellFormed(r.value)
  {
    if Before(end, start) then Err(OutOfOrder) else Ok(Span(start, end))
  }

  /** `OrderedNaiveDateTimeSpan::partial_cmp`. */
  function PartialCmp(a: Span, b: Span): (r: Option<Ordering>)
    ensures r.Some?
    ensures r.value == Less <==> Before(a.end, b.start)
    ensures r.value == Greater <==> !Before(a.end, b.start) && Before(b.end, a.start)
    ensures r.value == Equal <==> !Before(a.end, b.start) && !Before(b.end, a.start)
  {
    if Before(a.end, b.start) then Some(Less)
    else if Before(b.end, a.start) then Some(Greater)
    else Some(Equal)
  }

  /** `OrderedNaiveDateTimeSpan::cmp`, which unwraps `partial_cmp`. */
  function Cmp(a: Span, b: Span): Ordering {
    PartialCmp(a, b).value
  }

  // ---------------------------------------------------------------------------
  // What the ordering means.

  predicate Within(t: DateTime, s: Span) {
    !Before(t, s.start) && !Before(s.end, t)
  }

  /** Two spans share an instant. */
  ghost predicate Overlaps(a: Span, b: Span) {
    exists t :: Within(t, a) && Within(t, b)
  }

  /** On well-formed spans `Equal` means exactly "the spans share an instant",
      touching endpoints included. */
  lemma EqualIffOverlap(a: Span, b: Span)
    requires WellFormed(a) && WellFormed(b)
    ensures Cmp(a, b) == Equal <==> Overlaps(a, b)
  {
    if Cmp(a, b) == Equal {
      BeforeTotal(a.start, b.start);
      var t := if Before(a.start, b.start) then b.start else a.start;
      assert Within(t, a) && Within(t, b);
    }
    if Overlaps(a, b) {
      var t :| Within(t, a) && Within(t, b);
      if Before(a.end, b.start) {
        BeforeTotal(t, a.end);
        if Before(t, a.end) {
          BeforeTransitive(t, a.end, b.start);
        }
      }
      if Before(b.end, a.start) {
        BeforeTotal(t, b.end);
        if Before(t, b.end) {
          BeforeTransitive(t, b.end, a.start);
        }
      }
    }
  }

  lemma CmpReflexive(a: Span)
    requires WellFormed(a)
    ensures Cmp(a, a) == Equal
  {
  }

  /** Without well-formedness even reflexivity fails. */
  lemma CmpIrreflexiveWhenReversed(a: Span)
    requires !WellFormed(a)
    ensures Cmp(a, a) == Less
  {
  }

  lemma CmpAntisymmetric(a: Span, b: Span)
    requires WellFormed(a) && WellFormed(b)
    ensures Cmp(a, b) == Less <==> Cmp(b, a) == Greater
    ensures Cmp(a, b) == Equal <==> Cmp(b, a) == Equal
  {
    if Before(a.end, b.start) && Before(b.end, a.start) {
      BeforeTransitive(a.end, b.start, b.end);
    }
  }

  /** `Less` is transitive as long as the middle span is well formed. */
  lemma LessTransitive(a: Span, b: Span, c: Span)
    requires WellFormed(b)
    requires Cmp(a, b) == Less && Cmp(b, c) == Less
    ensures Cmp(a, c) == Less
  {
    BeforeTotal(b.start, b.end);
    if Before(b.start, b.end) {
      BeforeTransitive(b.start, b.end, c.start);
    }
    BeforeTransitive(a.end, b.start, c.start);
  }

  /** A span that ends before `b` begins compares `Less` than every span that
      begins no earlier than `b` ends. */
  lemma LessThroughOrdered(k: Span, b: Span, c: Span)
    requires WellFormed(b)
    requires Before(k.end, b.start) && Before(b.end, c.start)
    ensures Before(k.end, c.start)
  {
    BeforeTotal(b.start, b.end);
    if Before(b.start, b.end) {
      BeforeTransitive(b.start, b.end, c.start);
    }
    BeforeTransitive(k.end, b.start, c.start);
  }

  function At(s: SecondOfDay): DateTime {
    DateTime(Ymd(2021, 12, 8), s)
  }

  /** `Equal` is not transitive: [0 s, 1 s] and [2 s, 3 s] both overlap
      [1 s, 2 s] yet are `Less` one than the other. */
  lemma EqualNotTransitive()
    ensures var p, q, r := Span(At(0), At(1)), Span(At(1), At(2)), Span(At(2), At(3));
      && WellFormed(p) && WellFormed(q) && WellFormed(r)
      && Cmp(p, q) == Equal && Cmp(q, r) == Equal && Cmp(p, r) == Less
  {
  }

  /** Structural equality (the derived `PartialEq`) implies `Equal`. */
  lemma StructuralEqualityImpliesEqual(a: Span, b: Span)
    requires WellFormed(a) && a == b
    ensures Cmp(a, b) == Equal
  {
  }

  /** `Equal` does not imply structural equality: `==` and `cmp` disagree. */
  lemma EqualIsNotStructuralEquality()
    ensures var p, q := Span(At(0), At(1)), Span(At(1), At(2));
      && WellFormed(p) && WellFormed(q) && Cmp(p, q) == Equal && p != q
  {
  }

  // ---------------------------------------------------------------------------
  // BTreeDateMap as its in-order entry sequence.

  datatype Entry<V> = Entry(key: Span, value: V)

  type DateMap<V> = seq<Entry<V>>

  /** The representation invariant: well-formed keys, pairwise `Less` in
      sequence order. */
  predicate IsOrdered<V>(m: DateMap<V>) {
    && (forall i :: 0 <= i < |m| ==> WellFormed(m[i].key))
    && (forall i, j :: 0 <= i < j < |m| ==> Cmp(m[i].key, m[j].key) == Less)
  }

  /** The position a search for `k` stops at: the first stored key that `k`
      does not compare `Greater` than, or the end. */
  function SearchIndex<V>(m: DateMap<V>, k: Span): (i: nat)
    ensures i <= |m|
    ensures forall j :: 0 <= j < i ==> Cmp(k, m[j].key) == Greater
    ensures i < |m| ==> Cmp(k, m[i].key) != Greater
  {
    if |m| == 0 then 0
    else if Cmp(k, m[0].key) == Greater then 1 + SearchIndex(m[1..], k)
    else 0
  }

  /** What inserting `k` with `v` does to `m`, positionally: replace the value
      at the search position when its key compares `Equal`, otherwise put the
      new entry at the search position. */
  ghost predicate InsertedAt<V>(m: DateMap<V>, k: Span, v: V, r: DateMap<V>) {
    var i := SearchIndex(m, k);
    if i < |m| && Cmp(k, m[i].key) == Equal then r == m[i := Entry(m[i].key, v)]
    else r == m[..i] + [Entry(k, v)] + m[i..]
  }

  lemma InsertedAfterFirst<V>(m: DateMap<V>, k: Span, v: V, rest: DateMap<V>)
    requires |m| > 0 && Cmp(k, m[0].key) == Greater
    requires InsertedAt(m[1..], k, v, rest)
    ensures InsertedAt(m, k, v, [m[0]] + rest)
  {
    var i := SearchIndex(m[1..], k);
    assert SearchIndex(m, k) == i + 1;
    if i < |m[1..]| && Cmp(k, m[1..][i].key) == Equal {
      assert [m[0]] + m[1..][i := Entry(m[1..][i].key, v)] == m[i + 1 := Entry(m[i + 1].key, v)];
    } else {
      assert [m[0]] + (m[1..][..i] + [Entry(k, v)] + m[1..][i..]) == m[..i + 1] + [Entry(k, v)] + m[i + 1..];
    }
  }

  /** `BTreeMap::insert`: a stored key comparing `Equal` keeps its key and takes
      the new value; otherwise the new entry goes in before the first key it is
      `Less` than. */
  function Insert<V>(m: DateMap<V>, k: Span, v: V): (r: DateMap<V>)
    ensures InsertedAt(m, k, v, r)
  {
    if |m| == 0 then [Entry(k, v)]
    else
      match Cmp(k, m[0].key)
      case Greater =>
        var rest := Insert(m[1..], k, v);
        InsertedAfterFirst(m, k, v, rest);
        [m[0]] + rest
      case Equal => [Entry(m[0].key, v)] + m[1..]
      case Less => [Entry(k, v)] + m
  }

  /** Insertion adds at most one entry, replaces at most one value, and keeps
      the map's ordering invariant. */
  lemma InsertKeepsOrder<V>(m: DateMap<V>, k: Span, v: V)
    requires IsOrdered(m) && WellFormed(k)
    ensures IsOrdered(Insert(m, k, v))
    ensures |Insert(m, k, v)| == |m| || |Insert(m, k, v)| == |m| + 1
  {
    var i := SearchIndex(m, k);
    if i < |m| && Cmp(k, m[i].key) == Equal {
      ReplaceKeepsOrder(m, i, Entry(m[i].key, v));
    } else {
      InsertAtKeepsOrder(m, i, Entry(k, v));
    }
  }

  lemma ReplaceKeepsOrder<V>(m: DateMap<V>, i: nat, e: Entry<V>)
    requires IsOrdered(m) && i < |m| && e.key == m[i].key
    ensures IsOrdered(m[i := e])
  {
    var r := m[i := e];
    assert forall j :: 0 <= j < |m| ==> r[j].key == m[j].key;
  }

  /** Putting a key between the keys it is `Greater` than and the keys after
      them keeps the map ordered. */
  lemma InsertAtKeepsOrder<V>(m: DateMap<V>, i: nat, e: Entry<V>)
    requires IsOrdered(m) && WellFormed(e.key) && i <= |m|
    requires forall j :: 0 <= j < i ==> Cmp(e.key, m[j].key) == Greater
    requires i < |m| ==> Cmp(e.key, m[i].key) == Less
    ensures IsOrdered(m[..i] + [e] + m[i..])
  {
    var r := m[..i] + [e] + m[i..];
    assert forall j :: 0 <= j < i ==> r[j] == m[j];
    assert r[i] == e;
    assert forall j :: i < j < |r| ==> r[j] == m[j - 1];
    forall j | 0 <= j < i
      ensures Cmp(r[j].key, e.key) == Less
    {
      CmpAntisymmetric(e.key, m[j].key);
    }
    forall j | i < j < |r|
      ensures Cmp(e.key, r[j].key) == Less
    {
      if j - 1 > i {
        LessThroughOrdered(e.key, m[i].key, m[j - 1].key);
      }
    }
  }

  function KeySet<V>(m: DateMap<V>): set<Span> {
    set j | 0 <= j < |m| :: m[j].key
  }

  lemma KeySetUpdate<V>(m: DateMap<V>, i: nat, e: Entry<V>)
    requires i < |m| && e.key == m[i].key
    ensures KeySet(m[i := e]) == KeySet(m)
  {
    var r := m[i := e];
    forall x | x in KeySet(m)
      ensures x in KeySet(r)
    {
      var l :| 0 <= l < |m| && m[l].key == x;
      assert r[l].key == x;
    }
  }

  lemma KeySetInsertAt<V>(m: DateMap<V>, i: nat, e: Entry<V>)
    requires i <= |m|
    ensures KeySet(m[..i] + [e] + m[i..]) == KeySet(m) + {e.key}
  {
    var r := m[..i] + [e] + m[i..];
    assert r[i] == e;
    forall x | x in KeySet(m)
      ensures x in KeySet(r)
    {
      var l :| 0 <= l < |m| && m[l].key == x;
      if l < i {
        assert r[l] == m[l];
      } else {
        assert r[l + 1] == m[l];
      }
    }
    forall x | x in KeySet(r)
      ensures x in KeySet(m) + {e.key}
    {
      var l :| 0 <= l < |r| && r[l].key == x;
      if l < i {
        assert r[l] == m[l];
      } else if l > i {
        assert r[l] == m[l - 1];
      }
    }
  }

  /** Insertion never drops a key: the keys afterwards are the keys before,
      plus the new key exactly when no stored key compared `Equal`. */
  lemma InsertKeys<V>(m: DateMap<V>, k: Span, v: V)
    ensures var i := SearchIndex(m, k);
      if i < |m| && Cmp(k, m[i].key) == Equal then KeySet(Insert(m, k, v)) == KeySet(m)
      else KeySet(Insert(m, k, v)) == KeySet(m) + {k}
  {
    var i := SearchIndex(m, k);
    if i < |m| && Cmp(k, m[i].key) == Equal {
      KeySetUpdate(m, i, Entry(m[i].key, v));
    } else {
      KeySetInsertAt(m, i, Entry(k, v));
    }
  }

  /** The inserted value ends up stored under a key that overlaps the inserted
      key. */
  lemma InsertStoresValue<V>(m: DateMap<V>, k: Span, v: V)
    requires WellFormed(k)
    ensures exists j :: 0 <= j < |Insert(m, k, v)|
                        && Insert(m, k, v)[j].value == v
                        && Cmp(k, Insert(m, k, v)[j].key) == Equal
  {
    var r := Insert(m, k, v);
    var i := SearchIndex(m, k);
    assert r[i].value == v && Cmp(k, r[i].key) == Equal;
  }

  /** Nothing else changes: every entry after an insertion was there before,
      or carries the new value under a key the new key compares `Equal` to. */
  lemma InsertEntries<V>(m: DateMap<V>, k: Span, v: V)
    requires WellFormed(k)
    ensures forall e :: e in Insert(m, k, v) ==> e in m || (e.value == v && Cmp(k, e.key) == Equal)
  {
    var r := Insert(m, k, v);
    var i := SearchIndex(m, k);
    forall e | e in r
      ensures e in m || (e.value == v && Cmp(k, e.key) == Equal)
    {
      var l :| 0 <= l < |r| && r[l] == e;
      if i < |m| && Cmp(k, m[i].key) == Equal {
        if l != i {
          assert r[l] == m[l];
        }
      } else if l < i {
        assert r[l] == m[l];
      } else if l > i {
        assert r[l] == m[l - 1];
      }
    }
  }

  // ---------------------------------------------------------------------------
  // `map.iter().min()`: the fold `Iterator::min` performs over (key, value)
  // pairs, comparing keys first and values second.

  function CmpEntries<V>(a: Entry<V>, b: Entry<V>, cmpValues: (V, V) -> Ordering): Ordering {
    var byKey := Cmp(a.key, b.key);
    if byKey == Equal then cmpValues(a.value, b.value) else byKey
  }

  /** `cmp::min_by` folded left: keeps the accumulator unless it is `Greater`. */
  function MinFrom<V>(acc: Entry<V>, rest: DateMap<V>, cmpValues: (V, V) -> Ordering): (r: Entry<V>)
    ensures r == acc || r in rest
    decreases |rest|
  {
    if |rest| == 0 then acc
    else
      var next := if CmpEntries(acc, rest[0], cmpValues) == Greater then rest[0] else acc;
      MinFrom(next, rest[1..], cmpValues)
  }

  function IterMin<V>(m: DateMap<V>, cmpValues: (V, V) -> Ordering): (r: Option<Entry<V>>)
    ensures r.Some? <==> |m| > 0
    ensures r.Some? ==> r.value in m
  {
    if |m| == 0 then None else Some(MinFrom(m[0], m[1..], cmpValues))
  }

  lemma {:induction false} MinFromKeepsLeast<V>(acc: Entry<V>, rest: DateMap<V>, cmpValues: (V, V) -> Ordering)
    requires forall j :: 0 <= j < |rest| ==> Cmp(acc.key, rest[j].key) == Less
    ensures MinFrom(acc, rest, cmpValues) == acc
    decreases |rest|
  {
    if |rest| > 0 {
      MinFromKeepsLeast(acc, rest[1..], cmpValues);
    }
  }

  /** In an ordered map the minimum is the first entry, whose key is `Less`
      than every other key. */
  lemma OrderedMinIsFirst<V>(m: DateMap<V>, cmpValues: (V, V) -> Ordering)
    requires IsOrdered(m) && |m| > 0
    ensures IterMin(m, cmpValues) == Some(m[0])
    ensures forall j :: 0 < j < |m| ==> Cmp(m[0].key, m[j].key) == Less
  {
    MinFromKeepsLeast(m[0], m[1..], cmpValues);
  }

  /** After inserting two disjoint spans, in either order, the minimum entry is
      the earlier span with its own value. */
  lemma MinOfTwoDisjoint<V>(a: Span, b: Span, va: V, vb: V, cmpValues: (V, V) -> Ordering)
    requires WellFormed(a) && WellFormed(b) && Cmp(a, b) == Less
    ensures IterMin(Insert(Insert([], a, va), b, vb), cmpValues) == Some(Entry(a, va))
    ensures IterMin(Insert(Insert([], b, vb), a, va), cmpValues) == Some(Entry(a, va))
  {
    CmpAntisymmetric(a, b);
    var m1 := Insert(Insert([], a, va), b, vb);
    var m2 := Insert(Insert([], b, vb), a, va);
    assert m1 == [Entry(a, va), Entry(b, vb)];
    assert m2 == [Entry(a, va), Entry(b, vb)];
    OrderedMinIsFirst(m1, cmpValues);
  }

  /** Two overlapping spans collapse into one entry, and which key survives
      depends on the insertion order: the first key stays, the last value wins. */
  lemma OverlapInsertOrderMatters<V>(a: Span, b: Span, va: V, vb: V)
    requires WellFormed(a) && WellFormed(b) && Cmp(a, b) == Equal
    ensures Insert(Insert([], a, va), b, vb) == [Entry(a, vb)]
    ensures Insert(Insert([], b, vb), a, va) == [Entry(b, va)]
  {
    CmpAntisymmetric(a, b);
  }

  function CmpBools(x: bool, y: bool): Ordering {
    if x == y then Equal else if !x then Less else Greater
  }

  /** The repository's map test: a 2017 span with `false` and a 2018 span with
      `true`; the minimum is the 2017 entry. */
  lemma MinOfYearSpans()
    ensures var early := Span(DateTime(Ymd(2017, 1, 1), 43200), DateTime(Ymd(2017, 1, 2), 64800));
      var late := Span(DateTime(Ymd(2018, 1, 1), 43200), DateTime(Ymd(2018, 1, 2), 64800));
      IterMin(Insert(Insert([], early, false), late, true), CmpBools) == Some(Entry(early, false))
  {
    var early := Span(DateTime(Ymd(2017, 1, 1), 43200), DateTime(Ymd(2017, 1, 2), 64800));
    var late := Span(DateTime(Ymd(2018, 1, 1), 43200), DateTime(Ymd(2018, 1, 2), 64800));
    MinOfTwoDisjoint(early, late, false, true, CmpBools);
  }
}
