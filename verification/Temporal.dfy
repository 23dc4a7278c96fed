/** Partial dates, periods over them, and the references periods hold to entries of a card. */
module Temporal {
  import opened Prelude

  // ----- Partial dates -----

  datatype PartialDate = PartialDate(year: Option<int>, month: Option<int>, day: Option<int>)

  function CmpInt(a: int, b: int): int {
    if a < b then -1 else if a > b then 1 else 0
  }

  /** ComparePartialDates: at the coarsest precision the two share, None when they cannot be compared. */
  function Compare(a: Option<PartialDate>, b: Option<PartialDate>): Option<int> {
    if a.None? || b.None? || a.value.year.None? || b.value.year.None? then None
    else if a.value.year != b.value.year then Some(CmpInt(a.value.year.value, b.value.year.value))
    else if a.value.month.None? || b.value.month.None? then Some(0)
    else if a.value.month != b.value.month then Some(CmpInt(a.value.month.value, b.value.month.value))
    else if a.value.day.None? || b.value.day.None? then Some(0)
    else Some(CmpInt(a.value.day.value, b.value.day.value))
  }

  datatype Range = Range(start: Option<PartialDate>, end: Option<PartialDate>) {
    predicate IsEmpty() {
      start.None? && end.None?
    }

    predicate Reversed() {
      Compare(start, end) == Some(1)
    }
  }

  lemma CompareIsAntisymmetric(a: Option<PartialDate>, b: Option<PartialDate>)
    ensures Compare(a, b).Some? <==> Compare(b, a).Some?
    ensures Compare(a, b).Some? ==> Compare(b, a).value == -Compare(a, b).value
  {
    if a.Some? && b.Some? && a.value.year.Some? && b.value.year.Some? {
      assert a.value.year == b.value.year <==> a.value.year.value == b.value.year.value;
    }
  }

  /** Strictly before is transitive ... */
  lemma BeforeIsTransitive(a: Option<PartialDate>, b: Option<PartialDate>, c: Option<PartialDate>)
    requires Compare(a, b) == Some(-1) && Compare(b, c) == Some(-1)
    ensures Compare(a, c) == Some(-1)
  {
    assert a.value.year.value <= b.value.year.value <= c.value.year.value;
  }

  /** ... but comparing equal is not: May and June 2020 both compare equal to 2020. */
  lemma EqualIsNotTransitive() returns (a: PartialDate, b: PartialDate, c: PartialDate)
    ensures Compare(Some(a), Some(b)) == Some(0) && Compare(Some(b), Some(c)) == Some(0)
    ensures Compare(Some(a), Some(c)) == Some(-1)
  {
    a, b, c := PartialDate(Some(2020), Some(5), None), PartialDate(Some(2020), None, None),
        PartialDate(Some(2020), Some(6), None);
  }

  // ----- What a comparison says about full dates -----

  predicate Leap(y: int) {
    y % 4 == 0 && (y % 100 != 0 || y % 400 == 0)
  }

  function DaysInMonth(leap: bool, m: int): int {
    if m == 2 then (if leap then 29 else 28)
    else if m == 4 || m == 6 || m == 9 || m == 11 then 30
    else 31
  }

  datatype Date = Date(year: int, month: int, day: int) {
    predicate Valid() {
      1 <= month <= 12 && 1 <= day <= DaysInMonth(Leap(year), month)
    }

    predicate NotAfter(d: Date) {
      year < d.year || (year == d.year && (month < d.month || (month == d.month && day <= d.day)))
    }
  }

  /** A full date that fills in the unknown components; any date fills in an absent endpoint. */
  predicate Completes(p: Option<PartialDate>, d: Date) {
    && d.Valid()
    && (p.Some? ==>
          && (p.value.year.Some? ==> d.year == p.value.year.value)
          && (p.value.month.Some? ==> d.month == p.value.month.value)
          && (p.value.day.Some? ==> d.day == p.value.day.value))
  }

  /** Components in range; a day only together with a month that has it. */
  predicate ValidPartial(p: PartialDate) {
    && (p.month.Some? ==> 1 <= p.month.value <= 12)
    && (p.day.Some? ==>
          && p.month.Some?
          && 1 <= p.day.value <= DaysInMonth(p.year.None? || Leap(p.year.value), p.month.value))
  }

  predicate ValidEndpoint(p: Option<PartialDate>) {
    p.Some? ==> ValidPartial(p.value)
  }

  /** The earliest completion in a given year, and the latest. */
  function Earliest(p: PartialDate, year: int): Date {
    Date(year, if p.month.Some? then p.month.value else 1, if p.day.Some? then p.day.value else 1)
  }

  function Latest(p: PartialDate, year: int): Date {
    var m := if p.month.Some? then p.month.value else 12;
    Date(year, m, if p.day.Some? then p.day.value else DaysInMonth(Leap(year), m))
  }

  function LeapYearBefore(y: int): int {
    400 * ((y - 1) / 400)
  }

  lemma LeapYearsAround(y: int)
    ensures Leap(LeapYearBefore(y)) && LeapYearBefore(y) < y
    ensures Leap(LeapYearBefore(y) + 800) && y < LeapYearBefore(y) + 800
  {
    var q := (y - 1) / 400;
    EveryFourHundredthIsLeap(q);
    EveryFourHundredthIsLeap(q + 2);
  }

  lemma EveryFourHundredthIsLeap(q: int)
    ensures Leap(400 * q)
  {
    assert 400 * q == 4 * (100 * q);
  }

  predicate SomeOrder(r: Range, s: Date, e: Date) {
    Completes(r.start, s) && Completes(r.end, e) && s.NotAfter(e)
  }

  /** Strictly before means that every completion is before every completion. */
  lemma BeforeMeaning(a: PartialDate, b: PartialDate, s: Date, e: Date)
    requires Compare(Some(a), Some(b)) == Some(-1) && Completes(Some(a), s) && Completes(Some(b), e)
    ensures s.NotAfter(e) && s != e
  {
  }

  /** Components in range, with or without the month a day belongs to. */
  predicate InRange(p: PartialDate) {
    && (p.month.Some? ==> 1 <= p.month.value <= 12)
    && (p.day.Some? ==> 1 <= p.day.value <= 31)
    && (p.day.Some? && p.month.Some? ==>
          p.day.value <= DaysInMonth(p.year.None? || Leap(p.year.value), p.month.value))
  }

  /** Both endpoints name a day of the same year, the later day first, and the one month that is known leaves the
      other no room: the start is in December, or the end in January. */
  predicate DaysCross(r: Range) {
    && r.start.Some? && r.end.Some?
    && r.start.value.year.Some? && r.start.value.year == r.end.value.year
    && r.start.value.day.Some? && r.end.value.day.Some? && r.start.value.day.value > r.end.value.day.value
    && (|| (r.start.value.month == Some(12) && r.end.value.month.None?)
        || (r.start.value.month.None? && r.end.value.month == Some(1)))
  }

  lemma RangeCompletes(p: PartialDate, year: int)
    requires InRange(p) && (if p.year.Some? then year == p.year.value else Leap(year))
    ensures Completes(Some(p), Earliest(p, year)) && Completes(Some(p), Latest(p, year))
  {
  }

  lemma CrossedDaysHaveNoOrder(r: Range, s: Date, e: Date)
    requires DaysCross(r)
    ensures !SomeOrder(r, s, e)
  {
  }

  /** Away from crossed days, endpoints in range that are not reversed have completions in order. */
  lemma OrderInRange(r: Range) returns (s: Date, e: Date)
    requires r.start.Some? ==> InRange(r.start.value)
    requires r.end.Some? ==> InRange(r.end.value)
    requires !r.Reversed() && !DaysCross(r)
    ensures SomeOrder(r, s, e)
  {
    var start := if r.start.Some? then r.start.value else PartialDate(None, None, None);
    var end := if r.end.Some? then r.end.value else PartialDate(None, None, None);
    var anchor := if start.year.Some? then start.year.value else 0;
    var endYear := if end.year.Some? then end.year.value else LeapYearBefore(anchor) + 800;
    var startYear := if start.year.Some? then start.year.value else LeapYearBefore(endYear);
    LeapYearsAround(anchor);
    LeapYearsAround(endYear);
    s, e := Earliest(start, startYear), Latest(end, endYear);
    RangeCompletes(start, startYear);
    RangeCompletes(end, endYear);
  }

  /** For endpoints whose components are in range, and whether or not a day comes with its month: Reversed means that no
      completion is in order, except exactly on crossed days. */
  lemma MeaningHoldsIff(r: Range)
    requires r.start.Some? ==> InRange(r.start.value)
    requires r.end.Some? ==> InRange(r.end.value)
    ensures (r.Reversed() <==> !exists s: Date, e: Date :: SomeOrder(r, s, e)) <==> !DaysCross(r)
  {
    if DaysCross(r) {
      forall s: Date, e: Date ensures !SomeOrder(r, s, e) { CrossedDaysHaveNoOrder(r, s, e); }
    } else if !r.Reversed() {
      var s, e := OrderInRange(r);
    }
  }

  /** A range of valid partial dates is reversed exactly when no way of filling in its unknown components puts the
      start on or before the end. */
  lemma ReversedIff(r: Range)
    requires ValidEndpoint(r.start) && ValidEndpoint(r.end)
    ensures r.Reversed() <==> !exists s: Date, e: Date :: SomeOrder(r, s, e)
  {
    MeaningHoldsIff(r);
  }

  /** A day without its month breaks the correspondence: no day 1 of 2020 is on or after 31 December 2020, yet such
      a range does not count as reversed. */
  lemma DayWithoutMonth() returns (r: Range)
    ensures !ValidEndpoint(r.end) && !r.Reversed() && !exists s: Date, e: Date :: SomeOrder(r, s, e)
  {
    r := Range(Some(PartialDate(Some(2020), Some(12), Some(31))), Some(PartialDate(Some(2020), None, Some(1))));
  }

  // ----- Periods and the entries they refer to -----

  datatype Period = Period(kind: string, entryId: string, range: Range)

  /** The element IDs of a card's collections. */
  datatype Card = Card(addresses: seq<string>, organizations: seq<string>, titles: seq<string>)

  const ADDRESS := "address"
  const ORGANIZATION := "organization"
  const TITLE := "title"

  function Collection(c: Card, kind: string): Option<seq<string>> {
    if kind == ADDRESS then Some(c.addresses)
    else if kind == ORGANIZATION then Some(c.organizations)
    else if kind == TITLE then Some(c.titles)
    else None
  }

  function NonEmptyIds(ids: seq<string>): set<string> {
    set id | id in ids && id != ""
  }

  method CollectIds(ids: seq<string>) returns (found: set<string>)
    ensures found == NonEmptyIds(ids)
  {
    found := {};
    for k := 0 to |ids|
      invariant found == NonEmptyIds(ids[..k])
    {
      if ids[k] != "" { found := found + {ids[k]}; }
    }
    assert ids[..|ids|] == ids;
  }

  /** CardEntryIDs: None for a kind the card does not hold. */
  method CardEntryIds(c: Card, kind: string) returns (ids: Option<set<string>>)
    ensures ids == match Collection(c, kind) case None => None case Some(all) => Some(NonEmptyIds(all))
  {
    var all := Collection(c, kind);
    if all.None? { return None; }
    var found := CollectIds(all.value);
    return Some(found);
  }

  /** The period refers to an entry of the card. */
  predicate Resolves(c: Card, p: Period) {
    p.entryId != "" && Collection(c, p.kind).Some? && p.entryId in Collection(c, p.kind).value
  }

  /** The period can be stored with the card. */
  predicate Storable(c: Card, p: Period) {
    !p.range.IsEmpty() && !p.range.Reversed() && Resolves(c, p)
  }

  function Filter(ps: seq<Period>, f: Period -> bool): seq<Period> {
    if ps == [] then [] else if f(ps[0]) then [ps[0]] + Filter(ps[1..], f) else Filter(ps[1..], f)
  }

  lemma {:induction false} FilterSnoc(ps: seq<Period>, p: Period, f: Period -> bool)
    ensures Filter(ps + [p], f) == Filter(ps, f) + (if f(p) then [p] else [])
  {
    if ps == [] {
      assert ps + [p] == [p];
    } else {
      FilterSnoc(ps[1..], p, f);
      assert (ps + [p])[0] == ps[0] && (ps + [p])[1..] == ps[1..] + [p];
    }
  }

  lemma {:induction false} FilterChain(ps: seq<Period>, f: Period -> bool, g: Period -> bool)
    ensures Filter(Filter(ps, f), g) == Filter(ps, p => f(p) && g(p))
  {
    if ps != [] { FilterChain(ps[1..], f, g); }
  }

  lemma {:induction false} FilterAgrees(ps: seq<Period>, f: Period -> bool, g: Period -> bool)
    requires forall k :: 0 <= k < |ps| ==> f(ps[k]) == g(ps[k])
    ensures Filter(ps, f) == Filter(ps, g)
  {
    if ps != [] { FilterAgrees(ps[1..], f, g); }
  }

  lemma {:induction false} FilterLength(ps: seq<Period>, f: Period -> bool)
    ensures |Filter(ps, f)| <= |ps|
  {
    if ps != [] { FilterLength(ps[1..], f); }
  }

  /** Filtering changes nothing exactly when everything passes, and leaves nothing exactly when nothing passes. */
  lemma {:induction false} FilterExtremes(ps: seq<Period>, f: Period -> bool)
    ensures Filter(ps, f) == ps <==> forall k :: 0 <= k < |ps| ==> f(ps[k])
    ensures Filter(ps, f) == [] <==> forall k :: 0 <= k < |ps| ==> !f(ps[k])
  {
    if ps != [] {
      FilterExtremes(ps[1..], f);
      FilterLength(ps[1..], f);
      assert ps == [ps[0]] + ps[1..];
      var rest := ps[1..];
      assert forall k :: 1 <= k < |ps| ==> ps[k] == rest[k - 1];
      assert forall k :: 0 <= k < |rest| ==> rest[k] == ps[k + 1];
    }
  }

  function Unstorable(ps: seq<Period>, c: Card): seq<Period> {
    Filter(ps, p => !Storable(c, p))
  }

  function Pruned(ps: seq<Period>, c: Card): seq<Period> {
    Filter(ps, p => Resolves(c, p))
  }

  /** InvalidPeriods */
  method InvalidPeriods(ps: seq<Period>, c: Card) returns (bad: seq<Period>)
    ensures bad == Unstorable(ps, c)
  {
    bad := [];
    for k := 0 to |ps|
      invariant bad == Unstorable(ps[..k], c)
    {
      var p := ps[k];
      FilterSnoc(ps[..k], p, q => !Storable(c, q));
      assert ps[..k + 1] == ps[..k] + [p];
      if p.range.IsEmpty() || p.range.Reversed() || p.kind == "" || p.entryId == "" {
        bad := bad + [p];
        continue;
      }
      var ids := CardEntryIds(c, p.kind);
      if ids.None? || p.entryId !in ids.value { bad := bad + [p]; }
    }
    assert ps[..|ps|] == ps;
  }

  /** PruneOrphanPeriods */
  method PruneOrphanPeriods(ps: seq<Period>, c: Card) returns (kept: seq<Period>)
    ensures kept == Pruned(ps, c)
  {
    if |ps| == 0 { return ps; }
    kept := [];
    for k := 0 to |ps|
      invariant kept == Pruned(ps[..k], c)
    {
      var p := ps[k];
      FilterSnoc(ps[..k], p, q => Resolves(c, q));
      assert ps[..k + 1] == ps[..k] + [p];
      var ids := CardEntryIds(c, p.kind);
      if ids.None? { continue; }
      if p.entryId in ids.value { kept := kept + [p]; }
    }
    assert ps[..|ps|] == ps;
  }

  /** What pruning against a card leaves is invalid against that card only where a range is empty or reversed. */
  lemma PruningLeavesRangeErrors(ps: seq<Period>, c: Card)
    ensures Unstorable(Pruned(ps, c), c) == Filter(ps, p => Resolves(c, p) && (p.range.IsEmpty() || p.range.Reversed()))
  {
    FilterChain(ps, p => Resolves(c, p), p => !Storable(c, p));
    FilterAgrees(ps, p => (p => Resolves(c, p))(p) && (p => !Storable(c, p))(p),
                 p => Resolves(c, p) && (p.range.IsEmpty() || p.range.Reversed()));
  }

  /** Periods that were valid against one card are valid against any other once pruned against it. */
  lemma PruningKeepsValid(ps: seq<Period>, c: Card, other: Card)
    requires Unstorable(ps, c) == []
    ensures Unstorable(Pruned(ps, other), other) == []
  {
    PruningLeavesRangeErrors(ps, other);
    FilterExtremes(ps, p => !Storable(c, p));
    FilterExtremes(ps, p => Resolves(other, p) && (p.range.IsEmpty() || p.range.Reversed()));
    forall k | 0 <= k < |ps| ensures !ps[k].range.IsEmpty() && !ps[k].range.Reversed() {
      assert !(p => !Storable(c, p))(ps[k]);
    }
  }

  /** Pruning drops nothing exactly when every reference resolves; pruning twice is pruning once; and the order
      of two prunings does not matter. */
  lemma PruningDropsOnlyOrphans(ps: seq<Period>, c: Card, other: Card)
    ensures Pruned(ps, c) == ps <==> forall k :: 0 <= k < |ps| ==> Resolves(c, ps[k])
    ensures Pruned(Pruned(ps, c), c) == Pruned(ps, c)
    ensures Pruned(Pruned(ps, c), other) == Pruned(Pruned(ps, other), c)
  {
    var f, g: Period -> bool := p => Resolves(c, p), p => Resolves(other, p);
    FilterExtremes(ps, f);
    FilterChain(ps, f, f);
    FilterAgrees(ps, p => f(p) && f(p), f);
    FilterChain(ps, f, g);
    FilterChain(ps, g, f);
    FilterAgrees(ps, p => f(p) && g(p), p => g(p) && f(p));
  }

  // ----- On kinds and dates, spelled out -----

  /** A reference resolves exactly to a non-empty ID among those of its own kind. */
  lemma ResolvesMeaning(c: Card, p: Period)
    ensures Resolves(c, p) <==>
      p.entryId != "" &&
        (|| (p.kind == "address" && p.entryId in c.addresses)
         || (p.kind == "organization" && p.entryId in c.organizations)
         || (p.kind == "title" && p.entryId in c.titles))
  {
    assert ADDRESS[0] == 'a' && ORGANIZATION[0] == 'o' && TITLE[0] == 't';
  }

  /** When two dates cannot be compared at all, and the one way in which they compare as anything. */
  lemma ComparableIff(a: Option<PartialDate>, b: Option<PartialDate>)
    ensures Compare(a, b) != None <==> a.Some? && b.Some? && a.value.year != None && b.value.year != None
    ensures Compare(a, b) != None ==> Compare(a, b) in [Some(-1), Some(0), Some(1)]
  {
  }

  /** Two dates compare as equal exactly if they agree as far as the coarser of them goes. */
  lemma EqualIff(a: PartialDate, b: PartialDate)
    requires a.year != None && b.year != None
    ensures Compare(Some(a), Some(b)) == Some(0) <==>
      a.year == b.year && (a.month == None || b.month == None ||
        (a.month == b.month && (a.day == None || b.day == None || a.day == b.day)))
  {
  }

  /** Full dates compare by year, then month, then day. */
  lemma FullDatesCompare(y: int, m: int, d: int, y': int, m': int, d': int)
    ensures Compare(Some(PartialDate(Some(y), Some(m), Some(d))), Some(PartialDate(Some(y'), Some(m'), Some(d')))) ==
      Some(if y < y' || (y == y' && (m < m' || (m == m' && d < d'))) then -1
           else if y == y' && m == m' && d == d' then 0 else 1)
  {
  }

  /** One period against one card: what makes it invalid, and what orphans it. */
  lemma OnePeriod(p: Period, c: Card)
    ensures Unstorable([p], c) ==
      if p.range == Range(None, None) || Compare(p.range.start, p.range.end) == Some(1) || !Resolves(c, p)
      then [p] else []
    ensures Pruned([p], c) == if Resolves(c, p) then [p] else []
  {
    hide Compare, Resolves;
    assert [p][1..] == [];
    assert Filter([p][1..], q => !Storable(c, q)) == [] && Filter([p][1..], q => Resolves(c, q)) == [];
  }
}
