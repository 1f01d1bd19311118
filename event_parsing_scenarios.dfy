/** Concrete cases of the occupancy engine on the situations its test suite
    describes, for an arbitrary start of today. Hours are offsets from the start
    of today; region 0 is "am" (06-12), 1 is "pm" (12-17), 2 is "eve" (17-24). */
module EventParsingScenarios {
  import opened Constants
  import opened CalendarEvents
  import opened EventSort
  import opened EventParsing

  /** An event from `from` to `to` milliseconds after the start of today. */
  function Ev(id: string, startOfToday: int, from: int, to: int): CalendarEvent {
    CalendarEvent(id, id, startOfToday + from, startOfToday + to)
  }

  lemma SortedPair(e1: CalendarEvent, e2: CalendarEvent)
    requires e1.start <= e2.start
    ensures SortByStart([e1, e2]) == [e1, e2]
  {
    UnixSecondsMonotone(e1.start, e2.start);
    SortByStartOfSorted([e1, e2]);
  }

  /** 06:00-09:00 leaves 3 of the morning's 6 hours. */
  lemma ThreeHoursOfMorning(today: int)
    ensures var result := EventsByDayRegion(today, [Ev("1", today, 6 * HourMs, 9 * HourMs)]);
      |result| == HorizonDays && |result[0].regions| == 3 &&
      result[0].regions[0].regionId == "am" && result[0].regions[0].remaining == 3 * HourMs
  {
    var e := Ev("1", today, 6 * HourMs, 9 * HourMs);
    ResultRegion(today, [e], 0, 0);
    SortByStartOfSorted([e]);
    OneEventRemaining(CreateEmptyRegion(today, REGIONS[0]), e);
  }

  /** 06:00-08:00 and 08:00-11:00 leave 1 hour of the morning: the back-to-back
      events subtract nothing from each other. */
  lemma BackToBackMorning(today: int)
    ensures var events := [Ev("1", today, 6 * HourMs, 8 * HourMs), Ev("2", today, 8 * HourMs, 11 * HourMs)];
      var am := EventsByDayRegion(today, events)[0].regions[0];
      am.remaining == 1 * HourMs && |am.events| == 2 && am.events[1].effectiveDuration == am.events[1].boundedDuration
  {
    var e1, e2 := Ev("1", today, 6 * HourMs, 8 * HourMs), Ev("2", today, 8 * HourMs, 11 * HourMs);
    ResultRegion(today, [e1, e2], 0, 0);
    SortedPair(e1, e2);
    var r := CreateEmptyRegion(today, REGIONS[0]);
    TwoEventsRemaining(r, e1, e2);
    assert [e1, e2][1..] == [e2];
    var r1 := AssignToRegion(r, e1);
    assert FoldRegion(r, [e1, e2]) == FoldRegion(r1, [e2]);
    assert FoldRegion(r1, [e2]) == FoldRegion(AssignToRegion(r1, e2), []);
    EffectiveDurationDisjoint(today + 8 * HourMs, today + 11 * HourMs, r1.events);
  }

  /** 12:00-12:30 leaves 4.5 of the afternoon's 5 hours and is not recorded in
      the morning, which ends at 12:00. */
  lemma HalfHourOfAfternoon(today: int)
    ensures var result := EventsByDayRegion(today, [Ev("1", today, 12 * HourMs, 12 * HourMs + 30 * MinuteMs)]);
      result[0].regions[1].remaining == 4 * HourMs + 30 * MinuteMs &&
      result[0].regions[0].events == []
  {
    var e := Ev("1", today, 12 * HourMs, 12 * HourMs + 30 * MinuteMs);
    ResultRegion(today, [e], 0, 0);
    ResultRegion(today, [e], 0, 1);
    SortByStartOfSorted([e]);
    OneEventRemaining(CreateEmptyRegion(today, REGIONS[1]), e);
    FoldRegionUntouched(CreateEmptyRegion(today, REGIONS[0]), [e]);
  }

  /** 13:00-15:00 and 14:00-16:00 leave 2 hours of the afternoon: the shared
      hour is consumed once. */
  lemma OverlappingAfternoon(today: int)
    ensures var events := [Ev("1", today, 13 * HourMs, 15 * HourMs), Ev("2", today, 14 * HourMs, 16 * HourMs)];
      EventsByDayRegion(today, events)[0].regions[1].remaining == 2 * HourMs
  {
    var e1, e2 := Ev("1", today, 13 * HourMs, 15 * HourMs), Ev("2", today, 14 * HourMs, 16 * HourMs);
    ResultRegion(today, [e1, e2], 0, 1);
    SortedPair(e1, e2);
    TwoEventsRemaining(CreateEmptyRegion(today, REGIONS[1]), e1, e2);
  }

  /** 11:00-14:00 is recorded once in the morning, clipped to 11:00-12:00, and
      once in the afternoon, clipped to 12:00-14:00. */
  lemma CrossingEvent(today: int)
    ensures var result := EventsByDayRegion(today, [Ev("1", today, 11 * HourMs, 14 * HourMs)]);
      var am, pm := result[0].regions[0], result[0].regions[1];
      && |am.events| == 1 && am.events[0].boundedStart == today + 11 * HourMs && am.events[0].boundedEnd == today + 12 * HourMs
      && |pm.events| == 1 && pm.events[0].boundedStart == today + 12 * HourMs && pm.events[0].boundedEnd == today + 14 * HourMs
  {
    var e := Ev("1", today, 11 * HourMs, 14 * HourMs);
    ResultRegion(today, [e], 0, 0);
    ResultRegion(today, [e], 0, 1);
    SortByStartOfSorted([e]);
    assert FoldRegion(CreateEmptyRegion(today, REGIONS[0]), [e]) == AssignToRegion(CreateEmptyRegion(today, REGIONS[0]), e);
    assert FoldRegion(CreateEmptyRegion(today, REGIONS[1]), [e]) == AssignToRegion(CreateEmptyRegion(today, REGIONS[1]), e);
  }

  /** 22:00-02:00 is clipped at the evening's end, the next midnight (which
      formats as "00:00"), and touches nothing on the next day. */
  lemma OverflowIntoNextDay(today: int)
    ensures var result := EventsByDayRegion(today, [Ev("1", today, 22 * HourMs, 26 * HourMs)]);
      && |result[0].regions[2].events| == 1
      && result[0].regions[2].events[0].boundedEnd == today + DayMs == result[1].startOfDay
      && forall j :: 0 <= j < 3 ==> result[1].regions[j].events == []
  {
    var e := Ev("1", today, 22 * HourMs, 26 * HourMs);
    ResultLayout(today, [e]);
    ResultRegion(today, [e], 0, 2);
    SortByStartOfSorted([e]);
    assert FoldRegion(CreateEmptyRegion(today, REGIONS[2]), [e]) == AssignToRegion(CreateEmptyRegion(today, REGIONS[2]), e);
    forall j | 0 <= j < 3
      ensures EventsByDayRegion(today, [e])[1].regions[j].events == []
    {
      ResultRegion(today, [e], 1, j);
      FoldRegionUntouched(CreateEmptyRegion(today + DayMs, REGIONS[j]), [e]);
    }
  }

  /** 04:00-08:00 is clipped to start at 06:00 in the morning. */
  lemma EarlyStartClipped(today: int)
    ensures var result := EventsByDayRegion(today, [Ev("1", today, 4 * HourMs, 8 * HourMs)]);
      |result[0].regions[0].events| == 1 &&
      result[0].regions[0].events[0].boundedStart == today + 6 * HourMs
  {
    var e := Ev("1", today, 4 * HourMs, 8 * HourMs);
    ResultRegion(today, [e], 0, 0);
    SortByStartOfSorted([e]);
    assert FoldRegion(CreateEmptyRegion(today, REGIONS[0]), [e]) == AssignToRegion(CreateEmptyRegion(today, REGIONS[0]), e);
  }

  /** An event covering the whole afternoon, 12:00-17:00, is recorded nowhere:
      its ends are not strictly inside any region. */
  lemma WholeRegionEventSkipped(today: int)
    ensures var result := EventsByDayRegion(today, [Ev("1", today, 12 * HourMs, 17 * HourMs)]);
      forall j :: 0 <= j < 3 ==> result[0].regions[j].events == []
  {
    var e := Ev("1", today, 12 * HourMs, 17 * HourMs);
    SortByStartOfSorted([e]);
    forall j | 0 <= j < 3
      ensures EventsByDayRegion(today, [e])[0].regions[j].events == []
    {
      ResultRegion(today, [e], 0, j);
      FoldRegionUntouched(CreateEmptyRegion(today, REGIONS[j]), [e]);
    }
  }

  /** With no events every region of every day keeps all of its time. */
  lemma NoEventsAllFree(today: int)
    ensures var result := EventsByDayRegion(today, []);
      forall i, j :: 0 <= i < |result| && 0 <= j < |result[i].regions| ==>
        result[i].regions[j].remaining == result[i].regions[j].total && result[i].regions[j].events == []
  {
    forall i, j | 0 <= i < HorizonDays && 0 <= j < 3
      ensures EventsByDayRegion(today, [])[i].regions[j].remaining == EventsByDayRegion(today, [])[i].regions[j].total
      ensures EventsByDayRegion(today, [])[i].regions[j].events == []
    {
      ResultRegion(today, [], i, j);
    }
  }

  /** Every record of `r` covers exactly [bs, be]. */
  predicate AllRecordsCover(r: DayRegion, bs: int, be: int) {
    forall k :: 0 <= k < |r.events| ==> r.events[k].boundedStart == bs && r.events[k].boundedEnd == be
  }

  lemma {:induction false} OverlapSumOfCopies(bs: int, be: int, prior: seq<DayRegionEvent>)
    requires bs <= be
    requires forall k :: 0 <= k < |prior| ==> prior[k].boundedStart == bs && prior[k].boundedEnd == be
    ensures OverlapSum(bs, be, prior) == |prior| * (be - bs)
    decreases |prior|
  {
    if prior != [] {
      OverlapSumOfCopies(bs, be, prior[1..]);
    }
  }

  /** Recording the same event again when every earlier record covers the same
      clipped interval subtracts the interval once per earlier record. */
  lemma AssignSameAgain(r: DayRegion, e: CalendarEvent)
    requires Touches(r, e) && WellFormed(e)
    requires AllRecordsCover(r, Max(e.start, r.start), Min(e.end, r.end))
    ensures var bs, be := Max(e.start, r.start), Min(e.end, r.end);
      var r' := AssignToRegion(r, e);
      && r'.start == r.start && r'.end == r.end && r'.total == r.total
      && AllRecordsCover(r', bs, be)
      && |r'.events| == |r.events| + 1
      && r'.events[..|r.events|] == r.events
      && r'.events[|r.events|].effectiveDuration == (be - bs) - |r.events| * (be - bs)
      && r'.remaining == r.remaining - r'.events[|r.events|].effectiveDuration
  {
    var bs, be := Max(e.start, r.start), Min(e.end, r.end);
    SubtractOverlapsIsSum(be - bs, bs, be, r.events);
    OverlapSumOfCopies(bs, be, r.events);
    AssignTouched(r, e);
  }

  /** Events that all start at the same instant are left in input order. */
  lemma SameStartSorted(events: seq<CalendarEvent>)
    requires forall k :: 0 <= k < |events| ==> events[k].start == events[0].start
    ensures SortByStart(events) == events
  {
    SortByStartOfSorted(events);
  }

  /** Four copies of one event in a fresh region: the third copy's effective
      duration is minus the clipped length, and the region ends with twice the
      clipped length more than it started with. */
  lemma FourCopies(r: DayRegion, e: CalendarEvent)
    requires r.events == [] && Touches(r, e) && WellFormed(e)
    ensures var d := Min(e.end, r.end) - Max(e.start, r.start);
      var f := FoldRegion(r, [e, e, e, e]);
      && |f.events| == 4
      && f.events[2].effectiveDuration == -d
      && f.total == r.total
      && f.remaining == r.remaining + 2 * d
  {
    var r1 := AssignToRegion(r, e);
    AssignSameAgain(r, e);
    var r2 := AssignToRegion(r1, e);
    AssignSameAgain(r1, e);
    var r3 := AssignToRegion(r2, e);
    AssignSameAgain(r2, e);
    var r4 := AssignToRegion(r3, e);
    AssignSameAgain(r3, e);
    assert r4.events[2] == r3.events[2];
    assert [e, e, e, e][1..] == [e, e, e];
    assert [e, e, e][1..] == [e, e];
    assert [e, e][1..] == [e];
    assert FoldRegion(r, [e, e, e, e]) == FoldRegion(r1, [e, e, e]);
    assert FoldRegion(r1, [e, e, e]) == FoldRegion(r2, [e, e]);
    assert FoldRegion(r2, [e, e]) == FoldRegion(r3, [e]);
    assert FoldRegion(r3, [e]) == FoldRegion(r4, []);
  }

  /** The overlaps are summed, not merged: of four identical 13:00-16:00 events
      the third has a negative effective duration (-3h) and the afternoon ends
      with 11 hours remaining, more than its 5-hour total. */
  lemma OverlapsSummedNotMerged(today: int)
    ensures var e := Ev("1", today, 13 * HourMs, 16 * HourMs);
      var pm := EventsByDayRegion(today, [e, e, e, e])[0].regions[1];
      && |pm.events| == 4
      && pm.events[2].effectiveDuration == -3 * HourMs
      && pm.total == 5 * HourMs
      && pm.remaining == 11 * HourMs
  {
    var e := Ev("1", today, 13 * HourMs, 16 * HourMs);
    SameStartSorted([e, e, e, e]);
    ResultRegion(today, [e, e, e, e], 0, 1);
    AfternoonFourCopies(today, e);
  }

  lemma AfternoonFourCopies(today: int, e: CalendarEvent)
    requires e == Ev("1", today, 13 * HourMs, 16 * HourMs)
    ensures var pm := FoldRegion(CreateEmptyRegion(today, REGIONS[1]), [e, e, e, e]);
      && |pm.events| == 4
      && pm.events[2].effectiveDuration == -3 * HourMs
      && pm.total == 5 * HourMs
      && pm.remaining == 11 * HourMs
  {
    var pm := CreateEmptyRegion(today, REGIONS[1]);
    assert pm.remaining == pm.total == 5 * HourMs;
    assert Touches(pm, e);
    FourCopies(pm, e);
  }
}
