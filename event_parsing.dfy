/** The day/region occupancy engine: it builds the empty days of the horizon,
    then folds the events, in start order, over every region of every day,
    clipping each event to the regions it touches and subtracting its
    effective (not previously covered) length from the region's remaining time.

    Instants and durations are integer milliseconds; `startOfToday` stands for
    the local start of the current day that the source reads from the clock. */
module EventParsing {
  import opened Constants
  import opened CalendarEvents
  import opened EventSort

  /** How many days, from today on, are generated. */
  const HorizonDays: nat := 14

  /** One event as recorded in one region of one day, clipped to the region. */
  datatype DayRegionEvent = DayRegionEvent(
    dayId: int,
    regionId: string,
    event: CalendarEvent,
    boundedStart: int,
    boundedEnd: int,
    boundedDuration: int,
    effectiveDuration: int)

  /** One region of one day. `dayId` identifies the day by its start instant. */
  datatype DayRegion = DayRegion(
    dayId: int,
    regionId: string,
    name: string,
    emoji: string,
    start: int,
    end: int,
    total: int,
    remaining: int,
    events: seq<DayRegionEvent>)

  datatype Day = Day(startOfDay: int, endOfDay: int, regions: seq<DayRegion>)

  function Max(a: int, b: int): int { if a >= b then a else b }
  function Min(a: int, b: int): int { if a <= b then a else b }

  // ---------------------------------------------------------------------------
  // Day skeletons

  /** The parts of a region that are fixed when the day is created and that no
      event ever changes: identity, display fields, bounds and total. */
  predicate RegionFrame(r: DayRegion, startOfDay: int, def: RegionDef) {
    && r.dayId == startOfDay
    && r.regionId == def.id
    && r.name == def.name
    && r.emoji == def.emoji
    && r.start == startOfDay + def.start
    && r.end == startOfDay + def.end
    && r.total == Span(def)
  }

  function CreateEmptyRegion(startOfDay: int, def: RegionDef): (r: DayRegion)
    ensures RegionFrame(r, startOfDay, def)
    ensures r.remaining == r.total == r.end - r.start
    ensures r.events == []
  {
    var start := startOfDay + def.start;
    var end := startOfDay + def.end;
    DayRegion(startOfDay, def.id, def.name, def.emoji, start, end, end - start, end - start, [])
  }

  /** `createEmptyDay(daysFromNow)`: the day `daysFromNow` days after today,
      with one empty region per entry of the region table, in table order. */
  function CreateEmptyDay(startOfToday: int, daysFromNow: int): (d: Day)
    ensures d.startOfDay == startOfToday + daysFromNow * DayMs
    ensures d.endOfDay == d.startOfDay + DayMs - 1
    ensures |d.regions| == |REGIONS|
    ensures forall j :: 0 <= j < |REGIONS| ==>
      d.regions[j] == CreateEmptyRegion(d.startOfDay, REGIONS[j])
  {
    var startOfDay := startOfToday + daysFromNow * DayMs;
    Day(startOfDay, startOfDay + DayMs - 1,
        seq(|REGIONS|, j requires 0 <= j < |REGIONS| => CreateEmptyRegion(startOfDay, REGIONS[j])))
  }

  /** The horizon of `count` empty days starting today. */
  function EmptyDays(startOfToday: int, count: nat): (days: seq<Day>)
    ensures |days| == count
    ensures forall i :: 0 <= i < count ==> days[i] == CreateEmptyDay(startOfToday, i)
  {
    seq(count, i => CreateEmptyDay(startOfToday, i))
  }

  /** A fresh day is cut into its regions without gaps: the first region starts
      at 06:00, each region ends where the next begins, the last one ends at the
      next midnight (one millisecond after `endOfDay`); every region has nothing
      recorded and all of its time remaining. */
  lemma EmptyDayLayout(startOfToday: int, daysFromNow: int)
    ensures var d := CreateEmptyDay(startOfToday, daysFromNow);
      && d.regions[0].start == d.startOfDay + 6 * HourMs
      && d.regions[|d.regions| - 1].end == d.endOfDay + 1
      && (forall j :: 0 <= j < |d.regions| - 1 ==> d.regions[j].end == d.regions[j + 1].start)
      && (forall j :: 0 <= j < |d.regions| ==>
            && d.regions[j].start < d.regions[j].end
            && d.regions[j].remaining == d.regions[j].total
            && d.regions[j].events == []
            && ValidRegion(d.regions[j]))
  {
    RegionTablePartition();
    var d := CreateEmptyDay(startOfToday, daysFromNow);
    forall j | 0 <= j < |d.regions|
      ensures ValidRegion(d.regions[j])
    {
      assert d.regions[j].events == [];
    }
  }

  // ---------------------------------------------------------------------------
  // Folding one event into one region

  /** dayjs `t.isBetween(a, b)` with its default '()' bounds: strictly inside. */
  predicate IsBetween(t: int, a: int, b: int) {
    a < t < b
  }

  /** The region test: the event is assigned to the region when its start or its
      end lies strictly inside the region. */
  predicate Touches(r: DayRegion, e: CalendarEvent) {
    IsBetween(e.start, r.start, r.end) || IsBetween(e.end, r.start, r.end)
  }

  /** One step of the overlap reduction: subtract the overlap of the new clipped
      interval with an earlier recorded event, when that overlap is positive. */
  function OverlapStep(prev: int, boundedStart: int, boundedEnd: int, cur: DayRegionEvent): int {
    var overlapStart := Max(boundedStart, cur.boundedStart);
    var overlapEnd := Min(boundedEnd, cur.boundedEnd);
    var overlap := overlapEnd - overlapStart;
    if overlap > 0 then prev - overlap else prev
  }

  /** `region.events.reduce(..., prev)`: the overlap steps over the earlier
      events, first to last. It never adds time. */
  function SubtractOverlaps(prev: int, boundedStart: int, boundedEnd: int, prior: seq<DayRegionEvent>): (r: int)
    ensures r <= prev
    decreases |prior|
  {
    if prior == [] then prev
    else SubtractOverlaps(OverlapStep(prev, boundedStart, boundedEnd, prior[0]), boundedStart, boundedEnd, prior[1..])
  }

  /** The clipped length minus the positive overlaps with the earlier events. */
  function EffectiveDuration(boundedStart: int, boundedEnd: int, prior: seq<DayRegionEvent>): int {
    SubtractOverlaps(boundedEnd - boundedStart, boundedStart, boundedEnd, prior)
  }

  /** The record of `e` that is appended to `r` when `e` touches `r`. */
  function Record(r: DayRegion, e: CalendarEvent): DayRegionEvent {
    var boundedStart := Max(e.start, r.start);
    var boundedEnd := Min(e.end, r.end);
    var boundedDuration := boundedEnd - boundedStart;
    var effectiveDuration := EffectiveDuration(boundedStart, boundedEnd, r.events);
    DayRegionEvent(r.dayId, r.regionId, e, boundedStart, boundedEnd, boundedDuration, effectiveDuration)
  }

  /** The body of the innermost `map`: an untouched region is returned as it
      is; a touched one gets the clipped record appended and its remaining time
      reduced by the record's effective duration. */
  function AssignToRegion(r: DayRegion, e: CalendarEvent): DayRegion {
    if !Touches(r, e) then r
    else
      var next := Record(r, e);
      r.(remaining := r.remaining - next.effectiveDuration, events := r.events + [next])
  }

  function AssignToDay(d: Day, e: CalendarEvent): Day {
    d.(regions := seq(|d.regions|, j requires 0 <= j < |d.regions| => AssignToRegion(d.regions[j], e)))
  }

  function AssignToDays(days: seq<Day>, e: CalendarEvent): seq<Day> {
    seq(|days|, i requires 0 <= i < |days| => AssignToDay(days[i], e))
  }

  /** `events.reduce(..., emptyDays)`: the events folded over the days, first to last. */
  function FoldEvents(days: seq<Day>, events: seq<CalendarEvent>): (r: seq<Day>)
    ensures |r| == |days|
    ensures forall i :: 0 <= i < |days| ==> |r[i].regions| == |days[i].regions|
    decreases |events|
  {
    if events == [] then days
    else FoldEvents(AssignToDays(days, events[0]), events[1..])
  }

  /** The events folded over a single region, first to last. */
  function FoldRegion(r: DayRegion, events: seq<CalendarEvent>): DayRegion
    decreases |events|
  {
    if events == [] then r
    else FoldRegion(AssignToRegion(r, events[0]), events[1..])
  }

  /** What `getEventsByDayRegion` returns: the 14 days from today with the
      events, sorted by start, folded in. */
  function EventsByDayRegion(startOfToday: int, events: seq<CalendarEvent>): (days: seq<Day>)
    ensures |days| == HorizonDays
    ensures forall i :: 0 <= i < HorizonDays ==> |days[i].regions| == |REGIONS|
  {
    FoldEvents(EmptyDays(startOfToday, HorizonDays), SortByStart(events))
  }

  /** `getEventsByDayRegion(events)`: sorts the caller's array in place, then
      folds the sorted events over the empty horizon. */
  method GetEventsByDayRegion(startOfToday: int, events: array<CalendarEvent>) returns (days: seq<Day>)
    modifies events
    ensures events[..] == SortByStart(old(events[..]))
    ensures days == EventsByDayRegion(startOfToday, old(events[..]))
  {
    var emptyDays := EmptyDays(startOfToday, HorizonDays);
    SortInPlace(events);
    days := FoldEvents(emptyDays, events[..]);
  }

  // ---------------------------------------------------------------------------
  // The region invariant

  /** Sum of the effective durations of the recorded events. */
  function SumEffective(events: seq<DayRegionEvent>): int {
    if events == [] then 0
    else SumEffective(events[..|events| - 1]) + events[|events| - 1].effectiveDuration
  }

  /** `ev` is a record of this region, clipped inside it, with its effective
      duration computed against the records before it. */
  predicate WellRecorded(ev: DayRegionEvent, r: DayRegion, prior: seq<DayRegionEvent>) {
    && ev.dayId == r.dayId
    && ev.regionId == r.regionId
    && r.start <= ev.boundedStart <= ev.boundedEnd <= r.end
    && ev.boundedDuration == ev.boundedEnd - ev.boundedStart
    && ev.effectiveDuration == EffectiveDuration(ev.boundedStart, ev.boundedEnd, prior)
  }

  /** The invariant every region keeps while well-formed events are folded in:
      the total is the region's length, the remaining time is the total minus
      the recorded effective durations, and every record is well recorded. */
  predicate ValidRegion(r: DayRegion) {
    && r.total == r.end - r.start
    && r.remaining == r.total - SumEffective(r.events)
    && forall k :: 0 <= k < |r.events| ==> WellRecorded(r.events[k], r, r.events[..k])
  }

  /** A well-formed event does not end before it starts. */
  predicate WellFormed(e: CalendarEvent) {
    e.start <= e.end
  }

  /** Events appear in a region's list in ascending start order. */
  predicate EventsInStartOrder(r: DayRegion) {
    forall i, j :: 0 <= i < j < |r.events| ==> StartKey(r.events[i].event) <= StartKey(r.events[j].event)
  }

  // ---------------------------------------------------------------------------
  // Properties of one step

  /** A region is left exactly as it was if and only if neither end of the event
      lies strictly inside it. */
  lemma AssignUnchangedIff(r: DayRegion, e: CalendarEvent)
    ensures AssignToRegion(r, e) == r <==> !Touches(r, e)
  {
    if Touches(r, e) {
      assert |AssignToRegion(r, e).events| == |r.events| + 1;
    }
  }

  /** An event that exactly matches a region, or contains it, is not recorded
      in it: neither of its ends is strictly inside. */
  lemma ContainingEventSkipped(r: DayRegion, e: CalendarEvent)
    requires e.start <= r.start && r.end <= e.end
    ensures AssignToRegion(r, e) == r
  {
  }

  /** In a touched region exactly one record, of `e`, is appended; the remaining
      time drops by its effective duration; nothing else about the region changes. */
  lemma AssignTouched(r: DayRegion, e: CalendarEvent)
    requires Touches(r, e)
    ensures var r' := AssignToRegion(r, e);
      && |r'.events| == |r.events| + 1
      && r'.events[..|r.events|] == r.events
      && r'.events[|r.events|].event == e
      && r'.events[|r.events|].dayId == r.dayId
      && r'.events[|r.events|].regionId == r.regionId
      && r'.remaining == r.remaining - r'.events[|r.events|].effectiveDuration
      && r'.(remaining := r.remaining, events := r.events) == r
  {
    var r' := AssignToRegion(r, e);
    assert r'.events[..|r.events|] == r.events;
  }

  /** Clipping: the record of a well-formed event lies within the region and is
      no longer than the event or the region; its effective duration is at most
      its clipped length. */
  lemma ClipWithinRegion(r: DayRegion, e: CalendarEvent)
    requires Touches(r, e) && WellFormed(e)
    ensures var ev := Record(r, e);
      && ev.boundedStart == Max(e.start, r.start)
      && ev.boundedEnd == Min(e.end, r.end)
      && r.start <= ev.boundedStart <= ev.boundedEnd <= r.end
      && 0 <= ev.boundedDuration <= e.end - e.start
      && ev.boundedDuration <= r.end - r.start
      && ev.effectiveDuration <= ev.boundedDuration
  {
  }

  /** Folding a well-formed event into a valid region keeps it valid. */
  lemma AssignKeepsValid(r: DayRegion, e: CalendarEvent)
    requires ValidRegion(r) && WellFormed(e)
    ensures ValidRegion(AssignToRegion(r, e))
  {
    if Touches(r, e) {
      var r' := AssignToRegion(r, e);
      var n := |r.events|;
      assert r'.events[..n] == r.events;
      assert SumEffective(r'.events) == SumEffective(r.events) + r'.events[n].effectiveDuration;
      forall k | 0 <= k < |r'.events|
        ensures WellRecorded(r'.events[k], r', r'.events[..k])
      {
        if k < n {
          assert r'.events[..k] == r.events[..k];
          assert WellRecorded(r.events[k], r, r.events[..k]);
        }
      }
    }
  }

  // ---------------------------------------------------------------------------
  // The effective duration

  /** The positive part of the overlap of [bs, be] with a recorded event. */
  function PositiveOverlap(boundedStart: int, boundedEnd: int, cur: DayRegionEvent): (ov: int)
    ensures ov >= 0
  {
    var overlap := Min(boundedEnd, cur.boundedEnd) - Max(boundedStart, cur.boundedStart);
    if overlap > 0 then overlap else 0
  }

  /** Reference sum of the positive overlaps with the earlier records. */
  function OverlapSum(boundedStart: int, boundedEnd: int, prior: seq<DayRegionEvent>): int {
    if prior == [] then 0
    else PositiveOverlap(boundedStart, boundedEnd, prior[0]) + OverlapSum(boundedStart, boundedEnd, prior[1..])
  }

  /** The reduction subtracts exactly the sum of the positive overlaps: the
      overlaps are added up, not merged, and nothing is clamped. */
  lemma {:induction false} SubtractOverlapsIsSum(prev: int, boundedStart: int, boundedEnd: int, prior: seq<DayRegionEvent>)
    ensures SubtractOverlaps(prev, boundedStart, boundedEnd, prior) == prev - OverlapSum(boundedStart, boundedEnd, prior)
    decreases |prior|
  {
    if prior != [] {
      SubtractOverlapsIsSum(OverlapStep(prev, boundedStart, boundedEnd, prior[0]), boundedStart, boundedEnd, prior[1..]);
    }
  }

  /** The overlap sum is never negative, and it is zero exactly when no earlier
      record overlaps the new interval by a positive amount. */
  lemma {:induction false} OverlapSumZeroIff(boundedStart: int, boundedEnd: int, prior: seq<DayRegionEvent>)
    ensures OverlapSum(boundedStart, boundedEnd, prior) >= 0
    ensures OverlapSum(boundedStart, boundedEnd, prior) == 0 <==>
      forall k :: 0 <= k < |prior| ==> Min(boundedEnd, prior[k].boundedEnd) <= Max(boundedStart, prior[k].boundedStart)
    decreases |prior|
  {
    if prior != [] {
      OverlapSumZeroIff(boundedStart, boundedEnd, prior[1..]);
      assert forall k :: 1 <= k < |prior| ==> prior[k] == prior[1..][k - 1];
    }
  }

  /** The effective duration never exceeds the clipped length, and equals it
      exactly when no earlier record overlaps by a positive amount. */
  lemma EffectiveDurationIff(boundedStart: int, boundedEnd: int, prior: seq<DayRegionEvent>)
    ensures EffectiveDuration(boundedStart, boundedEnd, prior) <= boundedEnd - boundedStart
    ensures EffectiveDuration(boundedStart, boundedEnd, prior) == boundedEnd - boundedStart <==>
      forall k :: 0 <= k < |prior| ==> Min(boundedEnd, prior[k].boundedEnd) <= Max(boundedStart, prior[k].boundedStart)
  {
    SubtractOverlapsIsSum(boundedEnd - boundedStart, boundedStart, boundedEnd, prior);
    OverlapSumZeroIff(boundedStart, boundedEnd, prior);
  }

  /** Earlier records that end at or before the new start, or start at or after
      the new end (back-to-back events included), subtract nothing. */
  lemma EffectiveDurationDisjoint(boundedStart: int, boundedEnd: int, prior: seq<DayRegionEvent>)
    requires forall k :: 0 <= k < |prior| ==>
      prior[k].boundedEnd <= boundedStart || boundedEnd <= prior[k].boundedStart
    ensures EffectiveDuration(boundedStart, boundedEnd, prior) == boundedEnd - boundedStart
  {
    EffectiveDurationIff(boundedStart, boundedEnd, prior);
  }

  // ---------------------------------------------------------------------------
  // Properties of the fold

  /** A region no event touches passes through the fold unchanged. */
  lemma {:induction false} FoldRegionUntouched(r: DayRegion, events: seq<CalendarEvent>)
    requires forall k :: 0 <= k < |events| ==> !Touches(r, events[k])
    ensures FoldRegion(r, events) == r
    decreases |events|
  {
    if events != [] {
      FoldRegionUntouched(r, events[1..]);
    }
  }

  /** Folding keeps the region's identity, display fields, bounds and total. */
  lemma {:induction false} FoldRegionKeepsFrame(r: DayRegion, events: seq<CalendarEvent>, startOfDay: int, def: RegionDef)
    requires RegionFrame(r, startOfDay, def)
    ensures RegionFrame(FoldRegion(r, events), startOfDay, def)
    decreases |events|
  {
    if events != [] {
      FoldRegionKeepsFrame(AssignToRegion(r, events[0]), events[1..], startOfDay, def);
    }
  }

  /** Folding well-formed events keeps a region valid. */
  lemma {:induction false} FoldRegionKeepsValid(r: DayRegion, events: seq<CalendarEvent>)
    requires ValidRegion(r)
    requires forall k :: 0 <= k < |events| ==> WellFormed(events[k])
    ensures ValidRegion(FoldRegion(r, events))
    decreases |events|
  {
    if events != [] {
      AssignKeepsValid(r, events[0]);
      FoldRegionKeepsValid(AssignToRegion(r, events[0]), events[1..]);
    }
  }

  /** Folding events sorted by start, none of which starts before the region's
      last record, keeps the region's records in start order. */
  lemma {:induction false} FoldRegionKeepsOrder(r: DayRegion, events: seq<CalendarEvent>)
    requires EventsInStartOrder(r)
    requires SortedByStart(events)
    requires forall i, k :: 0 <= i < |r.events| && 0 <= k < |events| ==>
      StartKey(r.events[i].event) <= StartKey(events[k])
    ensures EventsInStartOrder(FoldRegion(r, events))
    decreases |events|
  {
    if events != [] {
      var r' := AssignToRegion(r, events[0]);
      assert forall i :: 0 <= i < |r'.events| ==> r'.events[i] in r.events || r'.events[i].event == events[0];
      assert SortedByStart(events[1..]);
      FoldRegionKeepsOrder(r', events[1..]);
    }
  }

  /** The fold over the days works region by region: the days keep their
      bounds and count of regions, and each region is the fold of its events. */
  lemma {:induction false} FoldEventsPointwise(days: seq<Day>, events: seq<CalendarEvent>)
    ensures |FoldEvents(days, events)| == |days|
    ensures forall i :: 0 <= i < |days| ==>
      && FoldEvents(days, events)[i].startOfDay == days[i].startOfDay
      && FoldEvents(days, events)[i].endOfDay == days[i].endOfDay
      && |FoldEvents(days, events)[i].regions| == |days[i].regions|
      && forall j :: 0 <= j < |days[i].regions| ==>
           FoldEvents(days, events)[i].regions[j] == FoldRegion(days[i].regions[j], events)
    decreases |events|
  {
    if events != [] {
      var days' := AssignToDays(days, events[0]);
      FoldEventsPointwise(days', events[1..]);
    }
  }

  /** Region `j` of day `i` of the result is the sorted events folded into the
      empty region built from entry `j` of the table on day `i`. */
  lemma ResultRegion(startOfToday: int, events: seq<CalendarEvent>, i: int, j: int)
    requires 0 <= i < HorizonDays && 0 <= j < |REGIONS|
    ensures var result := EventsByDayRegion(startOfToday, events);
      && |result| == HorizonDays
      && |result[i].regions| == |REGIONS|
      && result[i].regions[j] == FoldRegion(CreateEmptyRegion(startOfToday + i * DayMs, REGIONS[j]), SortByStart(events))
  {
    FoldEventsPointwise(EmptyDays(startOfToday, HorizonDays), SortByStart(events));
  }

  /** The result has 14 days; day `i` starts `i` days after today and holds the
      regions of the table in order, with their bounds and totals. */
  lemma ResultLayout(startOfToday: int, events: seq<CalendarEvent>)
    ensures var result := EventsByDayRegion(startOfToday, events);
      && |result| == HorizonDays
      && forall i :: 0 <= i < HorizonDays ==>
           && result[i].startOfDay == startOfToday + i * DayMs
           && result[i].endOfDay == result[i].startOfDay + DayMs - 1
           && |result[i].regions| == |REGIONS|
           && forall j :: 0 <= j < |REGIONS| ==> RegionFrame(result[i].regions[j], result[i].startOfDay, REGIONS[j])
  {
    var empty := EmptyDays(startOfToday, HorizonDays);
    var sorted := SortByStart(events);
    FoldEventsPointwise(empty, sorted);
    forall i, j | 0 <= i < HorizonDays && 0 <= j < |REGIONS|
      ensures RegionFrame(EventsByDayRegion(startOfToday, events)[i].regions[j], empty[i].startOfDay, REGIONS[j])
    {
      FoldRegionKeepsFrame(empty[i].regions[j], sorted, empty[i].startOfDay, REGIONS[j]);
    }
  }

  /** For well-formed events every region of the result is valid: records are
      clipped inside their region and the remaining time is the total minus the
      recorded effective durations. */
  lemma ResultValid(startOfToday: int, events: seq<CalendarEvent>)
    requires forall k :: 0 <= k < |events| ==> WellFormed(events[k])
    ensures var result := EventsByDayRegion(startOfToday, events);
      forall i, j :: 0 <= i < |result| && 0 <= j < |result[i].regions| ==> ValidRegion(result[i].regions[j])
  {
    var sorted := SortByStart(events);
    forall k | 0 <= k < |sorted|
      ensures WellFormed(sorted[k])
    {
      assert sorted[k] in multiset(events);
    }
    forall i, j | 0 <= i < HorizonDays && 0 <= j < |REGIONS|
      ensures ValidRegion(EventsByDayRegion(startOfToday, events)[i].regions[j])
    {
      ResultRegion(startOfToday, events, i, j);
      EmptyDayLayout(startOfToday, i);
      FoldRegionKeepsValid(CreateEmptyRegion(startOfToday + i * DayMs, REGIONS[j]), sorted);
    }
  }

  /** Every region's records come in ascending start order, because the events
      are folded after the stable sort. */
  lemma ResultInStartOrder(startOfToday: int, events: seq<CalendarEvent>)
    ensures var result := EventsByDayRegion(startOfToday, events);
      forall i, j :: 0 <= i < |result| && 0 <= j < |result[i].regions| ==> EventsInStartOrder(result[i].regions[j])
  {
    forall i, j | 0 <= i < HorizonDays && 0 <= j < |REGIONS|
      ensures EventsInStartOrder(EventsByDayRegion(startOfToday, events)[i].regions[j])
    {
      ResultRegion(startOfToday, events, i, j);
      FoldRegionKeepsOrder(CreateEmptyRegion(startOfToday + i * DayMs, REGIONS[j]), SortByStart(events));
    }
  }

  // ---------------------------------------------------------------------------
  // One or two events in a region

  /** Length of the union of two intervals [a1, b1] and [a2, b2]. */
  function UnionLength(a1: int, b1: int, a2: int, b2: int): int
    requires a1 <= b1 && a2 <= b2
  {
    if b1 <= a2 || b2 <= a1 then (b1 - a1) + (b2 - a2)
    else Max(b1, b2) - Min(a1, a2)
  }

  /** A single well-formed event consumes exactly its clipped length. */
  lemma OneEventRemaining(r: DayRegion, e: CalendarEvent)
    requires r.events == [] && Touches(r, e) && WellFormed(e)
    ensures FoldRegion(r, [e]).remaining == r.remaining - (Min(e.end, r.end) - Max(e.start, r.start))
  {
    assert FoldRegion(r, [e]) == FoldRegion(AssignToRegion(r, e), []);
  }

  /** Two well-formed events touching a fresh region consume exactly the length
      of the union of their clipped intervals. */
  lemma TwoEventsRemaining(r: DayRegion, e1: CalendarEvent, e2: CalendarEvent)
    requires r.events == [] && Touches(r, e1) && Touches(r, e2)
    requires WellFormed(e1) && WellFormed(e2)
    ensures var a1, b1 := Max(e1.start, r.start), Min(e1.end, r.end);
      var a2, b2 := Max(e2.start, r.start), Min(e2.end, r.end);
      a1 <= b1 && a2 <= b2 &&
      FoldRegion(r, [e1, e2]).remaining == r.remaining - UnionLength(a1, b1, a2, b2)
  {
    var r1 := AssignToRegion(r, e1);
    assert [e1, e2][1..] == [e2];
    assert FoldRegion(r, [e1, e2]) == FoldRegion(r1, [e2]);
    assert FoldRegion(r1, [e2]) == FoldRegion(AssignToRegion(r1, e2), []);
    assert r1.events == [Record(r, e1)];
    var rec1 := Record(r, e1);
    assert EffectiveDuration(rec1.boundedStart, rec1.boundedEnd, []) == rec1.boundedDuration;
    var rec2 := Record(r1, e2);
    assert [rec1][1..] == [];
    var step := OverlapStep(rec2.boundedDuration, rec2.boundedStart, rec2.boundedEnd, rec1);
    assert SubtractOverlaps(step, rec2.boundedStart, rec2.boundedEnd, []) == step;
    assert rec2.effectiveDuration == OverlapStep(rec2.boundedDuration, rec2.boundedStart, rec2.boundedEnd, rec1);
  }
}
