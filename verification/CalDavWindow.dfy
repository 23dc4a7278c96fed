/** Filtering calendar objects by a time window, with yearly recurrences scanned year by year up to a cap. */
module CalDavWindow {
  import opened Prelude

  // ----- UTC times -----

  const DAY := 86_400_000_000_000

  predicate Leap(y: int) {
    y % 4 == 0 && (y % 100 != 0 || y % 400 == 0)
  }

  function DaysInYear(y: int): nat {
    if Leap(y) then 366 else 365
  }

  /** A UTC instant: its year and the nanoseconds elapsed in it. */
  datatype Time = Time(year: int, nanos: nat) {
    predicate Valid() {
      nanos < DaysInYear(year) * DAY
    }

    predicate Before(t: Time) {
      year < t.year || (year == t.year && nanos < t.nanos)
    }

    predicate After(t: Time) {
      t.Before(this)
    }

    /** The zero time.Time, 1 January of year 1. */
    predicate IsZero() {
      year == 1 && nanos == 0
    }

    /** Days since 1 January. */
    function YearDay(): nat {
      nanos / DAY
    }

    function Month(): (m: nat)
      requires Valid()
      ensures 1 <= m <= 12
    {
      MonthAt(Leap(year), YearDay(), 1)
    }

    function Day(): (d: nat)
      requires Valid()
      ensures d >= 1
    {
      YearDay() - DaysBefore(Leap(year), Month()) + 1
    }
  }

  /** Days of a year before month m begins; month 13 is the end of the year. */
  function DaysBefore(leap: bool, m: nat): nat
    requires 1 <= m <= 13
  {
    var common := [0, 31, 59, 90, 120, 151, 181, 212, 243, 273, 304, 334, 365];
    common[m - 1] + (if leap && m > 2 then 1 else 0)
  }

  /** The month, from m on, that day number d of the year falls into. */
  function MonthAt(leap: bool, d: nat, m: nat): (r: nat)
    requires 1 <= m <= 12 && DaysBefore(leap, m) <= d < DaysBefore(leap, 13)
    ensures m <= r <= 12 && DaysBefore(leap, r) <= d < DaysBefore(leap, r + 1)
    decreases 12 - m
  {
    if d < DaysBefore(leap, m + 1) then m else MonthAt(leap, d, m + 1)
  }

  /** time.Date(year, month, day, 0, 0, 0, 0, UTC) for the month and day of some date: a 29 February rolls over
      into March in a common year. */
  function Midnight(year: int, month: nat, day: nat): (t: Time)
    requires 1 <= month <= 12 && day >= 1
    ensures t.year == year
  {
    Time(year, (DaysBefore(Leap(year), month) + day - 1) * DAY)
  }

  /** The occurrence of a yearly event in a given year. */
  function Occurrence(dtstart: Time, year: int): Time
    requires dtstart.Valid()
  {
    Midnight(year, dtstart.Month(), dtstart.Day())
  }

  lemma DayIsInMonth(t: Time)
    requires t.Valid()
    ensures DaysBefore(Leap(t.year), t.Month()) <= t.YearDay() < DaysBefore(Leap(t.year), t.Month() + 1)
    ensures t.Day() <= (if t.Month() == 2 then 29 else DaysBefore(false, t.Month() + 1) - DaysBefore(false, t.Month()))
  {
  }

  /** Every occurrence lies inside its year. */
  lemma OccurrenceIsValid(dtstart: Time, year: int)
    requires dtstart.Valid()
    ensures Occurrence(dtstart, year).Valid()
  {
    DayIsInMonth(dtstart);
  }

  /** In the event's own year the occurrence is the event's day. */
  lemma OccurrenceInOwnYear(dtstart: Time)
    requires dtstart.Valid()
    ensures Occurrence(dtstart, dtstart.year) == Time(dtstart.year, dtstart.nanos - dtstart.nanos % DAY)
  {
  }

  /** In every year the occurrence is the same day of the same month, but for 29 February, which in a common year
      falls on 1 March. */
  lemma OccurrenceDay(dtstart: Time, year: int)
    requires dtstart.Valid()
    ensures Occurrence(dtstart, year).Valid()
    ensures var o := Occurrence(dtstart, year);
      if dtstart.Month() == 2 && dtstart.Day() == 29 && !Leap(year) then o.Month() == 3 && o.Day() == 1
      else o.Month() == dtstart.Month() && o.Day() == dtstart.Day()
  {
    hide Leap, MonthAt;
    OccurrenceIsValid(dtstart, year);
    DayIsInMonth(dtstart);
    var o := Occurrence(dtstart, year);
    DayIsInMonth(o);
    MonthIsUnique(Leap(year), o.YearDay(), o.Month(),
                  if dtstart.Month() == 2 && dtstart.Day() == 29 && !Leap(year) then 3 else dtstart.Month());
  }

  lemma MonthIsUnique(leap: bool, d: nat, m: nat, n: nat)
    requires 1 <= m <= 12 && 1 <= n <= 12
    requires DaysBefore(leap, m) <= d < DaysBefore(leap, m + 1) && DaysBefore(leap, n) <= d < DaysBefore(leap, n + 1)
    ensures m == n
  {
    if m < n { DaysBeforeGrows(leap, m + 1, n); }
    if n < m { DaysBeforeGrows(leap, n + 1, m); }
  }

  lemma {:induction false} DaysBeforeGrows(leap: bool, m: nat, n: nat)
    requires 1 <= m <= n <= 13
    ensures DaysBefore(leap, m) <= DaysBefore(leap, n)
    decreases n - m
  {
    if m < n { DaysBeforeGrows(leap, m + 1, n); }
  }

  // ----- Events and windows -----

  /** An event: DTSTART and DTEND when they are present and parse, and the recurrence rule when there is one. */
  datatype Event = Event(dtstart: Option<Time>, dtend: Option<Time>, rrule: Option<string>) {
    predicate Valid() {
      (dtstart.Some? ==> dtstart.value.Valid()) && (dtend.Some? ==> dtend.value.Valid())
    }
  }

  /** Inside the closed window. */
  predicate In(t: Time, start: Time, end: Time) {
    !t.Before(start) && !t.After(end)
  }

  /** strings.Contains */
  predicate Contains(s: string, sub: string) {
    exists i :: 0 <= i <= |s| && HasPrefix(s[i..], sub)
  }

  predicate IsYearly(e: Event) {
    e.rrule.Some? && Contains(ToUpper(e.rrule.value), "FREQ=YEARLY")
  }

  /** Some year's occurrence lies in the window, however long that is. */
  ghost predicate Recurs(dtstart: Time, start: Time, end: Time)
    requires dtstart.Valid()
  {
    exists year: int :: In(Occurrence(dtstart, year), start, end)
  }

  const CAP := 50

  /** Any window that holds a whole calendar year after its first holds the occurrence of that year. */
  lemma LongWindowHasOccurrence(dtstart: Time, start: Time, end: Time)
    requires dtstart.Valid() && end.year > start.year + 1
    ensures In(Occurrence(dtstart, start.year + 1), start, end)
  {
  }

  lemma OccurrenceInWindowYears(dtstart: Time, start: Time, end: Time, year: int)
    requires dtstart.Valid() && In(Occurrence(dtstart, year), start, end)
    ensures start.year <= year <= end.year
  {
  }

  /** eventInWindow: the cap on the scan loses nothing. */
  method EventInWindow(e: Event, dtstart: Time, start: Time, end: Time) returns (r: bool)
    requires dtstart.Valid()
    ensures r <==> In(dtstart, start, end) || (IsYearly(e) && Recurs(dtstart, start, end))
  {
    if !dtstart.Before(start) && !dtstart.After(end) { return true; }
    if e.rrule.None? || !Contains(ToUpper(e.rrule.value), "FREQ=YEARLY") { return false; }
    var year := start.year;
    while year <= end.year && year <= start.year + CAP
      invariant start.year <= year
      invariant forall y :: start.year <= y < year ==> !In(Occurrence(dtstart, y), start, end)
      decreases end.year - year
    {
      var candidate := Midnight(year, dtstart.Month(), dtstart.Day());
      if !candidate.Before(start) && !candidate.After(end) {
        assert In(Occurrence(dtstart, year), start, end);
        return true;
      }
      year := year + 1;
    }
    if y: int :| In(Occurrence(dtstart, y), start, end) {
      OccurrenceInWindowYears(dtstart, start, end, y);
      LongWindowHasOccurrence(dtstart, start, end);
      assert false;
    }
    return false;
  }

  /** The recurrence of a yearly event in a given year, at its time of day; the scan looks at midnight of that day only.
      A 29 February event recurs on 1 March in common years (OccurrenceDay). */
  function Recurrence(dtstart: Time, year: int): Time
    requires dtstart.Valid()
  {
    var o := Occurrence(dtstart, year);
    o.(nanos := o.nanos + dtstart.nanos % DAY)
  }

  /** A yearly event recurs in the window: in a year no earlier than its DTSTART's, that year included. */
  ghost predicate FromStart(dtstart: Time, start: Time, end: Time)
    requires dtstart.Valid()
  {
    exists year: int :: year >= dtstart.year && In(Recurrence(dtstart, year), start, end)
  }

  /** What eventInWindow answers for a yearly event. */
  ghost predicate Answer(dtstart: Time, start: Time, end: Time)
    requires dtstart.Valid()
  {
    In(dtstart, start, end) || Recurs(dtstart, start, end)
  }

  lemma FirstRecurrence(dtstart: Time)
    requires dtstart.Valid()
    ensures Recurrence(dtstart, dtstart.year) == dtstart
  {
    OccurrenceInOwnYear(dtstart);
  }

  /** Nothing recurs before DTSTART. */
  lemma NothingBeforeStart(dtstart: Time, start: Time, end: Time)
    requires dtstart.Valid() && end.Before(dtstart)
    ensures !FromStart(dtstart, start, end) && !In(dtstart, start, end)
  {
    FirstRecurrence(dtstart);
  }

  /** In a window that does not end before DTSTART, the scan finds an all-day event exactly when it recurs there. */
  lemma AllDayInReach(dtstart: Time, start: Time, end: Time)
    requires dtstart.Valid() && dtstart.nanos % DAY == 0 && !end.Before(dtstart)
    ensures Answer(dtstart, start, end) <==> FromStart(dtstart, start, end)
  {
    FirstRecurrence(dtstart);
    assert In(dtstart, start, end) ==> In(Recurrence(dtstart, dtstart.year), start, end);
    forall year: int ensures Recurrence(dtstart, year) == Occurrence(dtstart, year) {
    }
    if y: int :| In(Occurrence(dtstart, y), start, end) {
      if y >= dtstart.year {
        assert In(Recurrence(dtstart, y), start, end);
      } else {
        assert In(dtstart, start, end);
      }
    }
    if y: int :| y >= dtstart.year && In(Recurrence(dtstart, y), start, end) {
      assert In(Occurrence(dtstart, y), start, end);
    }
  }

  /** For an all-day event the answer is right in exactly the windows that do not end before DTSTART, and those in which
      no year at all has that day. */
  lemma AllDayScanIsRightIff(dtstart: Time, start: Time, end: Time)
    requires dtstart.Valid() && dtstart.nanos % DAY == 0
    ensures (Answer(dtstart, start, end) <==> FromStart(dtstart, start, end)) <==>
      !end.Before(dtstart) || !Recurs(dtstart, start, end)
  {
    hide In, Recurs, FromStart;
    if end.Before(dtstart) { NothingBeforeStart(dtstart, start, end); } else { AllDayInReach(dtstart, start, end); }
  }

  /** Every yearly event is found in some window that ends before it begins: the scan knows no first year. */
  lemma FoundBeforeItBegins(dtstart: Time) returns (at: Time)
    requires dtstart.Valid()
    ensures at.Before(dtstart) && Answer(dtstart, at, at) && !FromStart(dtstart, at, at)
  {
    at := Occurrence(dtstart, dtstart.year - 1);
    assert In(Occurrence(dtstart, dtstart.year - 1), at, at);
    NothingBeforeStart(dtstart, at, at);
  }

  /** Thus an event that begins on 1 June 2026 is found on 1 June 2000. */
  lemma JuneEventFoundTooEarly()
    ensures var d, at := Midnight(2026, 6, 1), Midnight(2000, 6, 1);
      d.Valid() && Answer(d, at, at) && !FromStart(d, at, at)
  {
    var d, at := Midnight(2026, 6, 1), Midnight(2000, 6, 1);
    MonthIsUnique(Leap(2026), d.YearDay(), d.Month(), 6);
    assert In(Occurrence(d, 2000), at, at);
    NothingBeforeStart(d, at, at);
  }

  /** Any timed event would be missed in some window: its recurrence in the year after its first,
      and nothing else. */
  lemma TimedRecurrenceCanBeMissed(dtstart: Time) returns (at: Time)
    requires dtstart.Valid() && dtstart.nanos % DAY != 0
    ensures !at.Before(dtstart) && FromStart(dtstart, at, at) && !Answer(dtstart, at, at)
  {
    at := Recurrence(dtstart, dtstart.year + 1);
    assert In(Recurrence(dtstart, dtstart.year + 1), at, at);
    forall year: int ensures !In(Occurrence(dtstart, year), at, at) {
      assert Occurrence(dtstart, year).nanos % DAY == 0 && at.nanos % DAY != 0;
    }
  }

  /** In the windows that do not end before DTSTART the scan is always right exactly for the events that begin at
      midnight. */
  lemma InReachScanIsRightIffAllDay(dtstart: Time)
    requires dtstart.Valid()
    ensures (forall start: Time, end: Time ::
               !end.Before(dtstart) ==> (Answer(dtstart, start, end) <==> FromStart(dtstart, start, end)))
       <==> dtstart.nanos % DAY == 0
  {
    hide In, FromStart, Answer;
    if dtstart.nanos % DAY == 0 {
      forall start: Time, end: Time | !end.Before(dtstart)
        ensures Answer(dtstart, start, end) <==> FromStart(dtstart, start, end)
      {
        AllDayInReach(dtstart, start, end);
      }
    } else {
      var at := TimedRecurrenceCanBeMissed(dtstart);
      assert !at.Before(dtstart) && !(Answer(dtstart, at, at) <==> FromStart(dtstart, at, at));
    }
  }

  /** For the yearly events the server serves, DTSTART is midnight UTC of the life event's day: the answer about them is
      right in exactly the windows that do not end before DTSTART or in which no year has that day. */
  lemma ServedScanIsRightIff(year: int, month: nat, day: nat, start: Time, end: Time)
    requires 1 <= month <= 12 && 1 <= day <= 31 && Midnight(year, month, day).Valid()
    ensures var d := Midnight(year, month, day);
      (Answer(d, start, end) <==> FromStart(d, start, end)) <==> !end.Before(d) || !Recurs(d, start, end)
  {
    AllDayScanIsRightIff(Midnight(year, month, day), start, end);
  }

  /** A 29 February event is found on 1 March of every common year. */
  lemma LeapDayIsFoundInMarch(dtstart: Time, year: int)
    requires dtstart.Valid() && dtstart.Month() == 2 && dtstart.Day() == 29 && !Leap(year)
    ensures var at := Midnight(year, 3, 1); Answer(dtstart, at, at)
  {
    var at := Midnight(year, 3, 1);
    assert Occurrence(dtstart, year) == at;
    assert In(Occurrence(dtstart, year), at, at);
  }

  /** rangeOverlapsWindow */
  predicate RangeOverlapsWindow(e: Event, dtstart: Time, start: Time, end: Time) {
    && e.dtend.Some? && !e.dtend.value.IsZero() && e.dtend.value.After(dtstart)
    && !dtstart.After(end) && e.dtend.value.After(start)
  }

  /** The event is under way at t: DTEND is exclusive. */
  predicate UnderWay(e: Event, dtstart: Time, t: Time) {
    !t.Before(dtstart) && e.dtend.Some? && !e.dtend.value.IsZero() && t.Before(e.dtend.value)
  }

  /** An event overlaps a window exactly when it is under way at some instant of it. */
  lemma OverlapMeaning(e: Event, dtstart: Time, start: Time, end: Time)
    requires e.Valid() && dtstart.Valid() && start.Valid() && end.Valid() && !end.Before(start)
    ensures RangeOverlapsWindow(e, dtstart, start, end) <==>
      exists t: Time :: t.Valid() && In(t, start, end) && UnderWay(e, dtstart, t)
  {
    if RangeOverlapsWindow(e, dtstart, start, end) {
      var t := if dtstart.Before(start) then start else dtstart;
      assert t.Valid() && In(t, start, end) && UnderWay(e, dtstart, t);
    }
  }

  // ----- The filter -----

  datatype Object = Object(path: string, events: Option<seq<Event>>)

  datatype Comp = Comp(name: string, start: Time, end: Time)

  const VEVENT := "VEVENT"

  /** The component filter that carries the window: the first one for events. */
  function Window(comps: seq<Comp>): Option<Comp> {
    if comps == [] then None else if comps[0].name == VEVENT then Some(comps[0]) else Window(comps[1..])
  }

  /** An event that keeps its object: nothing to test, an open window, or inside it one way or the other. */
  ghost predicate KeepsObject(e: Event, w: Comp)
    requires e.Valid()
  {
    || e.dtstart.None? || e.dtstart.value.IsZero()
    || w.start.IsZero() || w.end.IsZero()
    || In(e.dtstart.value, w.start, w.end)
    || (IsYearly(e) && Recurs(e.dtstart.value, w.start, w.end))
    || RangeOverlapsWindow(e, e.dtstart.value, w.start, w.end)
  }

  predicate ValidObject(o: Object) {
    o.events.Some? ==> forall k :: 0 <= k < |o.events.value| ==> o.events.value[k].Valid()
  }

  ghost predicate MustKeep(o: Object, w: Comp)
    requires ValidObject(o)
  {
    o.events.Some? && exists k :: 0 <= k < |o.events.value| && KeepsObject(o.events.value[k], w)
  }

  /** The objects that must be kept, in order. */
  ghost function Kept(objects: seq<Object>, w: Comp): seq<Object>
    requires forall k :: 0 <= k < |objects| ==> ValidObject(objects[k])
  {
    if objects == [] then []
    else if MustKeep(objects[0], w) then [objects[0]] + Kept(objects[1..], w)
    else Kept(objects[1..], w)
  }

  lemma KeptSnoc(objects: seq<Object>, o: Object, w: Comp)
    requires ValidObject(o) && forall k :: 0 <= k < |objects| ==> ValidObject(objects[k])
    ensures Kept(objects + [o], w) == Kept(objects, w) + (if MustKeep(o, w) then [o] else [])
  {
    hide MustKeep, ValidObject;
    if objects == [] {
      assert objects + [o] == [o];
    } else {
      KeptSnoc(objects[1..], o, w);
      assert (objects + [o])[0] == objects[0] && (objects + [o])[1..] == objects[1..] + [o];
    }
  }

  method EventKeepsObject(e: Event, w: Comp) returns (keep: bool)
    requires e.Valid()
    ensures keep <==> KeepsObject(e, w)
  {
    hide Recurs, RangeOverlapsWindow, IsYearly;
    if e.dtstart.None? || e.dtstart.value.IsZero() { return true; }
    if w.start.IsZero() || w.end.IsZero() { return true; }
    keep := EventInWindow(e, e.dtstart.value, w.start, w.end);
    keep := keep || RangeOverlapsWindow(e, e.dtstart.value, w.start, w.end);
  }

  /** filterObjectsByWindow: without a query or a window everything, otherwise exactly the objects to keep. */
  method FilterObjectsByWindow(objects: seq<Object>, query: Option<seq<Comp>>) returns (out: seq<Object>)
    requires forall k :: 0 <= k < |objects| ==> ValidObject(objects[k])
    ensures query.None? || Window(query.value).None? ==> out == objects
    ensures query.Some? && Window(query.value).Some? ==> out == Kept(objects, Window(query.value).value)
  {
    hide KeepsObject, Kept;
    if query.None? { return objects; }
    var w: Option<Comp> := None;
    for k := 0 to |query.value|
      invariant w.None? && Window(query.value) == Window(query.value[k..])
    {
      assert query.value[k..][1..] == query.value[k + 1..];
      if query.value[k].name == VEVENT {
        w := Some(query.value[k]);
        break;
      }
    }
    if w.None? { return objects; }
    out := [];
    KeptNothing(w.value);
    for k := 0 to |objects|
      invariant out == Kept(objects[..k], w.value)
    {
      var obj := objects[k];
      KeptSnoc(objects[..k], obj, w.value);
      assert objects[..k + 1] == objects[..k] + [obj];
      if obj.events.None? { continue; }
      var keep := false;
      for j := 0 to |obj.events.value|
        invariant keep <==> exists i :: 0 <= i < j && KeepsObject(obj.events.value[i], w.value)
      {
        var keeps := EventKeepsObject(obj.events.value[j], w.value);
        if keeps { keep := true; }
      }
      if keep { out := out + [obj]; }
    }
    assert objects[..|objects|] == objects;
  }

  lemma KeptNothing(w: Comp)
    ensures Kept([], w) == []
  {
  }

  /** What is kept is a selection, in order, of the objects, and every object that must be kept is in it. */
  lemma {:induction false} KeptIsASelection(objects: seq<Object>, w: Comp) returns (picked: seq<nat>)
    requires forall k :: 0 <= k < |objects| ==> ValidObject(objects[k])
    ensures |picked| == |Kept(objects, w)|
    ensures forall i :: 0 <= i < |picked| ==> picked[i] < |objects| && objects[picked[i]] == Kept(objects, w)[i]
    ensures forall i, j :: 0 <= i < j < |picked| ==> picked[i] < picked[j]
    ensures forall k: nat :: k < |objects| ==> (k in picked <==> MustKeep(objects[k], w))
  {
    hide MustKeep, ValidObject, Kept;
    if objects == [] {
      picked := [];
      KeptNothing(w);
    } else {
      var n := |objects| - 1;
      var before := KeptIsASelection(objects[..n], w);
      KeptSnoc(objects[..n], objects[n], w);
      assert objects == objects[..n] + [objects[n]];
      if MustKeep(objects[n], w) {
        picked := before + [n];
      } else {
        picked := before;
        assert n !in before;
      }
      forall k: nat | k < n ensures k in picked <==> MustKeep(objects[k], w) {
        assert objects[..n][k] == objects[k];
      }
    }
  }

  // ----- On the calendar -----

  /** The lengths of the months and of some years. */
  lemma MonthLengths(y: int, m: nat)
    requires 1 <= m <= 12
    ensures DaysBefore(Leap(y), m + 1) - DaysBefore(Leap(y), m) ==
      if m in [4, 6, 9, 11] then 30 else if m != 2 then 31 else if Leap(y) then 29 else 28
    ensures DaysBefore(Leap(y), 1) == 0
    ensures DaysInYear(2023) == 365 == DaysInYear(1900) && DaysInYear(2024) == 366 == DaysInYear(2000)
  {
  }

  /** Midnight of a date: whole days of 24 hours since New Year. */
  lemma Midnights()
    ensures Midnight(2026, 1, 1) == Time(2026, 0) && Midnight(2026, 2, 1) == Time(2026, 31 * 24 * 3600 * 1_000_000_000)
    ensures Midnight(2024, 3, 1) == Time(2024, 60 * 24 * 3600 * 1_000_000_000)
  {
  }

  /** A rule is yearly if it says so anywhere, in any letter case. */
  lemma YearlyRules(e: Event, before: string, after: string)
    ensures e.rrule == Some(before + "FREQ=YEARLY" + after) ==> IsYearly(e)
    ensures e.rrule == Some("freq=yearly") ==> IsYearly(e)
    ensures e.rrule == None || e.rrule == Some("") || e.rrule == Some("FREQ=DAILY") ==> !IsYearly(e)
  {
    if e.rrule == Some(before + "FREQ=YEARLY" + after) {
      YearlyInCapitals();
      var up := ToUpper(e.rrule.value);
      assert up == ToUpper(before) + ToUpper("FREQ=YEARLY") + ToUpper(after);
      assert up[|before|..][..11] == ToUpper("FREQ=YEARLY");
      assert HasPrefix(up[|before|..], "FREQ=YEARLY");
    }
    if e.rrule == Some("freq=yearly") {
      YearlyInCapitals();
      assert ToUpper("freq=yearly")[0..] == "FREQ=YEARLY";
      assert HasPrefix(ToUpper("freq=yearly")[0..], "FREQ=YEARLY");
    }
  }

  lemma YearlyInCapitals()
    ensures ToUpper("FREQ=YEARLY") == "FREQ=YEARLY" && ToUpper("freq=yearly") == "FREQ=YEARLY"
  {
  }

  /** An object with an event that has no DTSTART, or the zero one, is kept in every window; and so is any event in a
      window that is open on a side. */
  lemma NothingToTest(o: Object, k: nat, w: Comp)
    requires ValidObject(o) && o.events.Some? && k < |o.events.value|
    requires o.events.value[k].dtstart in [None, Some(Time(1, 0))] || w.start == Time(1, 0) || w.end == Time(1, 0)
    ensures MustKeep(o, w)
  {
    assert KeepsObject(o.events.value[k], w);
  }

  /** An object without a calendar, or without events, is dropped. */
  lemma NoEvents(path: string, w: Comp)
    ensures !MustKeep(Object(path, None), w) && !MustKeep(Object(path, Some([])), w)
  {
  }

  /** An event that begins and ends outside a closed window is dropped unless it is yearly. */
  lemma OutsideIsDropped(path: string, e: Event, w: Comp)
    requires e.Valid() && e.dtstart.Some? && !e.dtstart.value.IsZero() && !w.start.IsZero() && !w.end.IsZero()
    requires !IsYearly(e)
    requires e.dtstart.value.After(w.end) || (e.dtstart.value.Before(w.start) &&
      (e.dtend == None || e.dtend == e.dtstart || !e.dtend.value.After(w.start)))
    ensures !MustKeep(Object(path, Some([e])), w)
  {
    hide IsYearly;
    assert !KeepsObject(e, w);
  }

  /** An event that begins in the window, or is still under way when it opens, is kept. */
  lemma InsideIsKept(path: string, e: Event, w: Comp)
    requires e.Valid() && e.dtstart.Some? && !e.dtstart.value.After(w.end)
    requires !e.dtstart.value.Before(w.start) ||
      (e.dtend.Some? && !e.dtend.value.IsZero() && e.dtend.value.After(w.start) && w.start.After(e.dtstart.value))
    ensures MustKeep(Object(path, Some([e])), w)
  {
    hide IsYearly;
    KeptByOne(path, e, w);
  }

  lemma KeptByOne(path: string, e: Event, w: Comp)
    requires e.Valid() && KeepsObject(e, w)
    ensures MustKeep(Object(path, Some([e])), w)
  {
    hide KeepsObject;
    var o := Object(path, Some([e]));
    assert o.events.value[0] == e;
  }

  function June(rule: Option<string>): Event {
    Event(Some(Midnight(2020, 6, 1)), None, rule)
  }

  const SUMMER_2026 := Comp("VEVENT", Midnight(2026, 5, 1), Midnight(2026, 9, 1))

  /** 1 June 2020 is found in the summer of 2026 only if it recurs every year. */
  lemma JuneInLaterSummer(path: string)
    ensures June(None).Valid() && June(Some("FREQ=YEARLY")).Valid() && June(Some("FREQ=DAILY")).Valid()
    ensures !MustKeep(Object(path, Some([June(None)])), SUMMER_2026)
    ensures !MustKeep(Object(path, Some([June(Some("FREQ=DAILY"))])), SUMMER_2026)
    ensures MustKeep(Object(path, Some([June(Some("FREQ=YEARLY"))])), SUMMER_2026)
  {
    hide IsYearly, Recurs, MustKeep;
    YearlyRules(June(None), "", "");
    YearlyRules(June(Some("FREQ=DAILY")), "", "");
    OutsideIsDropped(path, June(None), SUMMER_2026);
    OutsideIsDropped(path, June(Some("FREQ=DAILY")), SUMMER_2026);
    JuneRecurs();
    KeptByOne(path, June(Some("FREQ=YEARLY")), SUMMER_2026);
  }

  lemma JuneRecurs()
    ensures KeepsObject(June(Some("FREQ=YEARLY")), SUMMER_2026)
  {
    hide IsYearly, Recurs, MonthAt, Occurrence;
    var d := Midnight(2020, 6, 1);
    YearlyRules(June(Some("FREQ=YEARLY")), "", "");
    assert "" + "FREQ=YEARLY" + "" == "FREQ=YEARLY";
    JuneAgain();
    RecursIn(d, 2026, SUMMER_2026.start, SUMMER_2026.end);
  }

  lemma JuneAgain()
    ensures var d := Midnight(2020, 6, 1); d.Valid() && Occurrence(d, 2026) == Midnight(2026, 6, 1)
  {
    var d := Midnight(2020, 6, 1);
    MonthIsUnique(Leap(2020), d.YearDay(), d.Month(), 6);
  }

  lemma RecursIn(d: Time, year: int, start: Time, end: Time)
    requires d.Valid() && In(Occurrence(d, year), start, end)
    ensures Recurs(d, start, end)
  {
  }

  /** The window is that of the first filter for events; others do not matter. */
  lemma FirstEventFilter(w: Comp, rest: seq<Comp>)
    ensures w.name == "VEVENT" ==> Window([w] + rest) == Some(w)
    ensures w.name != "VEVENT" ==> Window([w] + rest) == Window(rest)
    ensures Window([]) == None
  {
    assert ([w] + rest)[1..] == rest;
  }
}
